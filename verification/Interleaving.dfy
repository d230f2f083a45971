/** A service's calls to the store among those of everybody else. */
module Interleaving {
  import opened Wrappers
  import opened MessageStore
  import opened InMemoryStores

  datatype Status = OK | InvalidArgument | Internal | DeadlineExceeded

  /** How a request stream ends after its last request. */
  datatype Ending = EndOfStream | Failure

  /** What happened at the store during a request: its states and the events between them. */
  datatype Trace = Trace(states: seq<State>, events: seq<Event>)

  ghost predicate Leads(t: Trace, from: State, to: State) {
    Path(t.states, t.events) && t.states[0] == from && t.states[|t.events|] == to
  }

  lemma LeadsLength(t: Trace, from: State, to: State)
    requires Leads(t, from, to)
    ensures |t.states| == |t.events| + 1 && t.states[0] == from && t.states[|t.events|] == to
  {
  }

  ghost predicate Continues(t: Trace, later: Trace) {
    t.states <= later.states && t.events <= later.events
  }

  ghost function Then(t: Trace, e: Event, s: State): Trace {
    Trace(t.states + [s], t.events + [e])
  }

  lemma LeadsOn(t: Trace, from: State, to: State, e: Event)
    requires Leads(t, from, to) && Enabled(to, e)
    ensures Leads(Then(t, e, Step(to, e)), from, Step(to, e)) && Continues(t, Then(t, e, Step(to, e)))
  {
    hide Step, Enabled;
    var later := Then(t, e, Step(to, e));
    forall i | 0 <= i < |later.events|
      ensures Enabled(later.states[i], later.events[i])
      ensures later.states[i + 1] == Step(later.states[i], later.events[i])
    {
      if i < |t.events| { PathStep(t.states, t.events, i); }
    }
  }

  lemma LeadsNowhere(s: State)
    ensures Leads(Trace([s], []), s, s)
  {
  }

  /** A service's own calls are the events at the given positions. */
  ghost predicate Placed(t: Trace, at: seq<nat>, calls: seq<Event>) {
    && |at| == |calls| && Increasing(at)
    && forall i :: 0 <= i < |at| ==> at[i] < |t.events| && t.events[at[i]] == calls[i]
  }

  lemma PlacedLater(t: Trace, at: seq<nat>, calls: seq<Event>, later: Trace)
    requires Placed(t, at, calls) && Continues(t, later)
    ensures Placed(later, at, calls)
  {
  }

  lemma PlacedNext(t: Trace, at: seq<nat>, calls: seq<Event>, e: Event, s: State)
    requires Placed(t, at, calls)
    ensures Placed(Then(t, e, s), at + [|t.events|], calls + [e])
  {
  }

  /** If nobody else calls, the own calls are all there is. */
  lemma PlacedAlone(t: Trace, at: seq<nat>, calls: seq<Event>)
    requires Placed(t, at, calls) && |t.events| == |calls|
    ensures t.events == calls && |at| == |calls|
    ensures forall i :: 0 <= i < |at| ==> at[i] == i
  {
    forall i | 0 <= i < |at|
      ensures at[i] == i
    {
      IncreasingAtLeast(at, i);
      IncreasingAtMost(at, i, |t.events|);
    }
  }

  /** The event takes the message with this id out of the store. */
  predicate Drops(e: Event, id: string) {
    e == Deletes(id) || e == Closes
  }

  predicate Saves(e: Event, id: string) {
    e.Stores? && Stamped(e.message, e.freshId, e.now).id == id
  }

  /** One of the events from i up to j drops the id, and none of those after it stores it again. */
  ghost predicate Gone(events: seq<Event>, id: string, i: nat, j: nat)
    requires j <= |events|
  {
    exists k :: i <= k < j && Drops(events[k], id) && forall l :: k < l < j ==> !Saves(events[l], id)
  }

  lemma SavedStep(s: State, e: Event, id: string)
    requires Enabled(s, e)
    ensures id in Step(s, e).messages <==> Saves(e, id) || (id in s.messages && !Drops(e, id))
  {
  }

  /** A stored id is still stored later exactly if it is not gone in between. */
  lemma {:induction false} StoredUnlessGone(states: seq<State>, events: seq<Event>, i: nat, j: nat, id: string)
    requires Path(states, events) && i <= j < |states| && id in states[i].messages
    ensures j <= |events| && (id in states[j].messages <==> !Gone(events, id, i, j))
  {
    hide Path, Step, Enabled, Gone;
    PathLength(states, events);
    if j == i {
      GoneNever(events, id, i);
    } else {
      StoredUnlessGone(states, events, i, j - 1, id);
      PathStep(states, events, j - 1);
      SavedStep(states[j - 1], events[j - 1], id);
      GoneNext(events, id, i, j);
    }
  }

  lemma GoneNever(events: seq<Event>, id: string, i: nat)
    requires i <= |events|
    ensures !Gone(events, id, i, i)
  {
  }

  lemma {:induction false} GoneNext(events: seq<Event>, id: string, i: nat, j: nat)
    requires i < j <= |events|
    ensures Gone(events, id, i, j)
       <==> Drops(events[j - 1], id) || (Gone(events, id, i, j - 1) && !Saves(events[j - 1], id))
  {
    hide Drops, Saves;
    if Drops(events[j - 1], id) {
    } else if Gone(events, id, i, j) {
      var k :| i <= k < j && Drops(events[k], id) && forall l :: k < l < j ==> !Saves(events[l], id);
      assert k < j - 1;
    } else if Gone(events, id, i, j - 1) {
      var k :| i <= k < j - 1 && Drops(events[k], id) && forall l :: k < l < j - 1 ==> !Saves(events[l], id);
    }
  }

  /** Calls that may run in between: an iteration order is not theirs to choose. */
  predicate Resembles(done: Event, e: Event) {
    done == e || (done.Gets? && e.Gets?)
  }

  ghost predicate Among(done: Event, calls: seq<Event>) {
    exists k :: 0 <= k < |calls| && Resembles(done, calls[k])
  }

  /** The call cannot happen: it needs an id that is no new one, or names a channel that does not exist
      or yields nothing yet. */
  predicate Blocked(s: State, e: Event) {
    match e
    case Stores(m, freshId, _) => m.id == "" && (freshId == "" || exists t <- s.topics :: freshId in s.topics[t])
    case Cleans(ch) => ch >= |s.channels|
    case Receives(ch) => ch >= |s.channels| || (s.channels[ch].buffer == [] && s.channels[ch].open)
    case _ => false
  }

  /** The calls from position start on, one after the other: call k is made at position at[k], unless
      it is blocked then. */
  ghost predicate Carried(t: Trace, start: nat, calls: seq<Event>, at: seq<nat>) {
    && |at| == |calls| + 1 && at[0] == start && at[|calls|] == |t.events| && |t.states| == |t.events| + 1
    && forall k :: 0 <= k < |calls| ==> CarriedAt(t, calls[k], at[k], at[k + 1])
  }

  ghost predicate CarriedAt(t: Trace, call: Event, now: nat, next: nat) {
    && now <= next && next <= |t.events| && now < |t.states|
    && if now < |t.events| && next == now + 1 then Resembles(t.events[now], call)
       else next == now && Blocked(t.states[now], call)
  }

  lemma NothingCarried(t: Trace, from: State, to: State)
    requires Leads(t, from, to)
    ensures Carried(t, |t.events|, [], [|t.events|])
  {
  }

  lemma CarriedNext(t: Trace, start: nat, calls: seq<Event>, at: seq<nat>, call: Event, done: Option<Event>,
                    from: State, s: State, d: State)
    requires Carried(t, start, calls, at) && Leads(t, from, s)
    requires match done case None => Blocked(s, call) case Some(e) => Resembles(e, call)
    ensures var later := if done.Some? then Then(t, done.value, d) else t;
            Carried(later, start, calls + [call], at + [|later.events|])
  {
    hide Path, Blocked;
    var later := if done.Some? then Then(t, done.value, d) else t;
    var at', calls' := at + [|later.events|], calls + [call];
    forall k | 0 <= k < |calls'|
      ensures CarriedAt(later, calls'[k], at'[k], at'[k + 1])
    {
      if k < |calls| { assert CarriedAt(t, calls[k], at[k], at[k + 1]); }
    }
  }

  /** Somebody else's call, unless it cannot happen now. */
  method OtherCall(store: InMemoryStore, e: Event) returns (ghost done: Option<Event>)
    requires Sound(store.View())
    modifies store
    ensures Sound(store.View())
    ensures done.None? ==> store.View() == old(store.View()) && Blocked(old(store.View()), e)
    ensures done.Some? ==>
              && Resembles(done.value, e) && Enabled(old(store.View()), done.value)
              && store.View() == Step(old(store.View()), done.value)
  {
    hide Sound, MessageStore.Store, MessageStore.Delete, MessageStore.Subscribe, MessageStore.Cleanup,
      MessageStore.Acknowledge, MessageStore.GetMessages, MessageStore.Close;
    done := Some(e);
    match e
    case Stores(m, freshId, now) =>
      if m.id != "" || (freshId != "" && forall t <- store.topics :: freshId !in store.topics[t]) {
        store.Store(m, freshId, now);
      } else {
        done := None;
      }
    case Deletes(id) => store.Delete(id);
    case Subscribes(topic) => var ch := store.Subscribe(topic);
    case Cleans(ch) =>
      if ch < |store.channels| { store.Cleanup(ch, store.channels[ch].topic); } else { done := None; }
    case Receives(ch) =>
      if ch < |store.channels| && (store.channels[ch].buffer != [] || !store.channels[ch].open) {
        var message := store.Receive(ch);
      } else {
        done := None;
      }
    case Acknowledges(id, consumer) => var found := store.Acknowledge(id, consumer);
    case Gets(topic, consumer, batchSize, _) =>
      var batch;
      ghost var order;
      batch, order := store.GetMessages(topic, consumer, batchSize);
      done := Some(Gets(topic, consumer, batchSize, order));
    case Adds(subscriber) => store.AddSubscriber(subscriber);
    case Removes(consumer) => store.RemoveSubscriber(consumer);
    case Closes => store.Close();
  }

  /** The calls of others that happen at one point of a service's loop. */
  method Others(store: InMemoryStore, calls: seq<Event>, ghost t: Trace, ghost from: State)
      returns (ghost later: Trace)
    requires Sound(store.View()) && Leads(t, from, store.View())
    modifies store
    ensures Sound(store.View()) && Leads(later, from, store.View())
    ensures Continues(t, later) && |t.events| <= |later.events|
    ensures calls == [] ==> later == t && store.View() == old(store.View())
    ensures forall i :: |t.events| <= i < |later.events| ==> Among(later.events[i], calls)
    ensures exists at: seq<nat> :: Carried(later, |t.events|, calls, at)
  {
    hide Sound, Leads, Step, Enabled, Carried, Blocked;
    later := t;
    ghost var at: seq<nat> := [|t.events|];
    NothingCarried(t, from, store.View());
    assert calls[..0] == [];
    for k := 0 to |calls|
      invariant Sound(store.View()) && Leads(later, from, store.View()) && Continues(t, later)
      invariant k == 0 ==> later == t && store.View() == old(store.View())
      invariant forall i :: |t.events| <= i < |later.events| ==> Among(later.events[i], calls)
      invariant Carried(later, |t.events|, calls[..k], at)
    {
      ghost var before := store.View();
      ghost var done := OtherCall(store, calls[k]);
      CarriedNext(later, |t.events|, calls[..k], at, calls[k], done, from, before, store.View());
      assert calls[..k + 1] == calls[..k] + [calls[k]];
      if done.Some? {
        LeadsOn(later, from, before, done.value);
        later := Then(later, done.value, store.View());
      }
      at := at + [|later.events|];
    }
    assert calls[..|calls|] == calls;
  }

  /** What others do at a given point of a loop. */
  function Turn(others: seq<seq<Event>>, j: nat): seq<Event> {
    if j < |others| then others[j] else []
  }

  predicate Alone(others: seq<seq<Event>>) {
    forall j :: 0 <= j < |others| ==> others[j] == []
  }

  lemma TurnAlone(others: seq<seq<Event>>, j: nat)
    requires Alone(others)
    ensures Turn(others, j) == []
  {
  }
}
