/** The publisher service's request loop, among the calls of other clients. */
module PublisherService {
  import opened Wrappers
  import opened MessageStore
  import opened InMemoryStores
  import opened Interleaving

  /** A publish request, with what the environment contributes: the id and time generated if they
      are missing, whether the acknowledgment's deadline has passed, and whether it can be sent. */
  datatype PublishRequest = PublishRequest(message: Option<Message>, waitForAck: bool,
                                           freshId: string, now: int, expired: bool, sends: bool)

  predicate Stops(r: PublishRequest) {
    r.message.None? || (r.waitForAck && (r.expired || !r.sends))
  }

  /** The number of requests before the first that stops the loop. */
  function Processed(requests: seq<PublishRequest>): (k: nat)
    ensures k <= |requests|
  {
    if requests == [] || Stops(requests[0]) then 0 else 1 + Processed(requests[1..])
  }

  lemma {:induction false} FirstStop(requests: seq<PublishRequest>, i: nat)
    requires i < |requests|
    ensures i < Processed(requests) ==> !Stops(requests[i])
    ensures i == Processed(requests) ==> Stops(requests[i])
  {
    if i == 0 || Stops(requests[0]) {
    } else {
      FirstStop(requests[1..], i - 1);
    }
  }

  /** The requests that are done, and why the next one is not. */
  lemma {:induction false} ProcessedAre(requests: seq<PublishRequest>)
    ensures var k := Processed(requests);
            && k <= |requests|
            && (forall i :: 0 <= i < k ==>
                  requests[i].message.Some? && (requests[i].waitForAck ==> !requests[i].expired && requests[i].sends))
            && (k < |requests| ==>
                  requests[k].message.None?
                  || (requests[k].waitForAck && (requests[k].expired || !requests[k].sends)))
            && StoredCount(requests) == k + if k < |requests| && requests[k].message.Some? then 1 else 0
  {
    var k := Processed(requests);
    forall i | 0 <= i < |requests| && i <= k
      ensures i < k ==> !Stops(requests[i])
      ensures i == k ==> Stops(requests[i])
    {
      FirstStop(requests, i);
    }
  }

  /** A request's message as it is stored. */
  function Filled(r: PublishRequest): Message
    requires r.message.Some?
  {
    Stamped(r.message.value, r.freshId, r.now)
  }

  /** The messages of requests as they are stored. */
  function Prepared(requests: seq<PublishRequest>): seq<Message> {
    if requests == [] then []
    else
      var r := requests[|requests| - 1];
      Prepared(requests[..|requests| - 1])
      + if r.message.Some? then [Filled(r)] else []
  }

  /** The ids of the requests that wait for an acknowledgment. */
  function AckIds(requests: seq<PublishRequest>): seq<string> {
    if requests == [] then []
    else
      var r := requests[|requests| - 1];
      AckIds(requests[..|requests| - 1])
      + if r.message.Some? && r.waitForAck then [Filled(r).id] else []
  }

  /** The request waits for an acknowledgment, and this is the id it gets. */
  predicate Awaits(r: PublishRequest, ack: string) {
    && r.message.Some? && r.waitForAck
    && ack == if r.message.value.id == "" then r.freshId else r.message.value.id
  }

  ghost predicate AckedAt(f: seq<nat>, acks: seq<string>, requests: seq<PublishRequest>) {
    && |f| == |acks| && Increasing(f) && Within(f, |requests|)
    && (forall i: nat :: i < |requests| && requests[i].message.Some? && requests[i].waitForAck ==> i in f)
    && (forall j :: 0 <= j < |f| ==> Awaits(requests[f[j]], acks[j]))
  }

  /** acks lists, in order, the ids of the requests that wait for one. */
  ghost predicate AcksOf(acks: seq<string>, requests: seq<PublishRequest>) {
    exists f: seq<nat> :: AckedAt(f, acks, requests)
  }

  lemma {:induction false} AckIdsAre(requests: seq<PublishRequest>)
    ensures AcksOf(AckIds(requests), requests)
  {
    hide AckedAt, Filled;
    var f: seq<nat> := [];
    if requests == [] {
      NoAcks();
    } else {
      var n := |requests| - 1;
      var r := requests[n];
      AckIdsAre(requests[..n]);
      f :| AckedAt(f, AckIds(requests[..n]), requests[..n]);
      AckedNext(f, AckIds(requests[..n]), requests[..n], r);
      assert requests == requests[..n] + [r];
      assert AckIds(requests[..n]) + [] == AckIds(requests[..n]);
      if r.message.Some? && r.waitForAck { f := f + [n]; }
    }
    assert AckedAt(f, AckIds(requests), requests);
  }

  lemma NoAcks()
    ensures AckedAt([], [], [])
  {
  }

  lemma {:induction false} AckedNext(f: seq<nat>, acks: seq<string>, requests: seq<PublishRequest>, r: PublishRequest)
    requires AckedAt(f, acks, requests)
    ensures if r.message.Some? && r.waitForAck
            then AckedAt(f + [|requests|], acks + [Filled(r).id], requests + [r])
            else AckedAt(f, acks, requests + [r])
  {
    var n := |requests|;
    assert forall i: nat :: i in f + [n] <==> i in f || i == n;
  }

  /** The call that stores a request's message. */
  function StoreCall(r: PublishRequest): Event
    requires r.message.Some?
  {
    Stores(Filled(r), r.freshId, r.now)
  }

  function StoreCalls(requests: seq<PublishRequest>): seq<Event> {
    if requests == [] then []
    else
      var r := requests[|requests| - 1];
      StoreCalls(requests[..|requests| - 1]) + if r.message.Some? then [StoreCall(r)] else []
  }

  /** How many requests get their message stored: a failed acknowledgment comes too late to stop its
      own request from that. */
  function StoredCount(requests: seq<PublishRequest>): (n: nat)
    ensures n <= |requests|
  {
    var k := Processed(requests);
    if k < |requests| && requests[k].message.Some? then k + 1 else k
  }

  lemma StoredHaveMessages(requests: seq<PublishRequest>)
    ensures forall i :: 0 <= i < StoredCount(requests) ==> requests[i].message.Some?
  {
    forall i | 0 <= i < StoredCount(requests)
      ensures requests[i].message.Some?
    {
      FirstStop(requests, i);
    }
  }

  /** Request i is done, and acknowledged if it asked for that, at position doneAt[i] of a trace,
      after its own store call and before the next. */
  ghost predicate Finished(at: seq<nat>, doneAt: seq<nat>, length: nat) {
    && |doneAt| <= |at|
    && forall i :: 0 <= i < |doneAt| ==>
         at[i] < doneAt[i] <= length && (i + 1 < |at| ==> doneAt[i] <= at[i + 1])
  }

  /** Stores requests until the stream ends or a request stops the loop.  A request without message
      stops it before anything is stored, a failed acknowledgment after its message was.
      others[2i] and others[2i + 1] are the calls that other clients make before request i is stored
      and before it is acknowledged. */
  method Publish(store: InMemoryStore, requests: seq<PublishRequest>, ending: Ending, others: seq<seq<Event>>)
      returns (status: Status, acks: seq<string>, ghost t: Trace, ghost at: seq<nat>, ghost doneAt: seq<nat>)
    requires Sound(store.View())
    requires forall j :: 0 <= j < |requests| ==> requests[j].freshId != ""
    modifies store
    ensures Sound(store.View()) && Leads(t, old(store.View()), store.View())
    ensures var k, n := Processed(requests), StoredCount(requests);
            && acks == AckIds(requests[..k])
            && |at| == n && Placed(t, at, StoreCalls(requests[..n]))
            && |doneAt| == k && Finished(at, doneAt, |t.events|)
            && (Alone(others) ==> |t.events| == n)
            && status == if k == |requests| then (if ending == EndOfStream then OK else Internal)
                         else if requests[k].message.None? then InvalidArgument
                         else if requests[k].expired then DeadlineExceeded else Internal
    ensures forall i :: 0 <= i < |doneAt| ==>
              requests[i].message.Some? && (requests[i].waitForAck ==> !requests[i].expired && requests[i].sends)
    ensures |doneAt| < |requests| ==>
              var r := requests[|doneAt|];
              r.message.None? || (r.waitForAck && (r.expired || !r.sends))
    ensures |at| == |doneAt| + if |doneAt| < |requests| && requests[|doneAt|].message.Some? then 1 else 0
  {
    ProcessedAre(requests);
    hide Sound, Leads, Placed, Finished, Filled, StoreCalls, AckIds, Progress, Turn, Alone, Processed, StoredCount;
    t, at, doneAt := Trace([store.View()], []), [], [];
    acks := [];
    var i := 0;
    NothingProcessed(t, requests);
    LeadsNowhere(store.View());
    while i < |requests|
      invariant 0 <= i <= Processed(requests)
      invariant Sound(store.View()) && Leads(t, old(store.View()), store.View())
      invariant acks == AckIds(requests[..i]) && Progress(t, at, doneAt, requests, i)
      invariant Alone(others) ==> |t.events| == i
    {
      var r := requests[i];
      PrefixNext(requests, i);
      ProgressParts(t, at, doneAt, requests, i);
      if r.message.None? { return InvalidArgument, acks, t, at, doneAt; }
      if Alone(others) { TurnAlone(others, 2 * i); TurnAlone(others, 2 * i + 1); }
      var id;
      id, t, at := StoreNext(store, requests, i, Turn(others, 2 * i), Turn(others, 2 * i + 1),
                             t, at, doneAt, old(store.View()));
      if r.waitForAck {
        if r.expired { return DeadlineExceeded, acks, t, at, doneAt; }
        if !r.sends { return Internal, acks, t, at, doneAt; }
        acks := acks + [id];
      }
      doneAt := doneAt + [|t.events|];
      i := i + 1;
    }
    ProgressParts(t, at, doneAt, requests, i);
    AllProcessed(requests);
    status := if ending == EndOfStream then OK else Internal;
  }

  /** The first i requests are done. */
  ghost predicate Progress(t: Trace, at: seq<nat>, doneAt: seq<nat>, requests: seq<PublishRequest>, i: nat) {
    && i <= |requests| && |at| == |doneAt| == i
    && Placed(t, at, StoreCalls(requests[..i])) && Finished(at, doneAt, |t.events|)
  }

  lemma ProgressParts(t: Trace, at: seq<nat>, doneAt: seq<nat>, requests: seq<PublishRequest>, i: nat)
    requires Progress(t, at, doneAt, requests, i)
    ensures i <= |requests| && |at| == |doneAt| == i
    ensures Placed(t, at, StoreCalls(requests[..i])) && Finished(at, doneAt, |t.events|)
    ensures requests[..|requests|] == requests
  {
  }

  /** One round up to the acknowledgment, with what others do before the store and after it. */
  method StoreNext(store: InMemoryStore, requests: seq<PublishRequest>, i: nat,
                   before: seq<Event>, after: seq<Event>,
                   ghost t: Trace, ghost at: seq<nat>, ghost doneAt: seq<nat>, ghost from: State)
      returns (id: string, ghost later: Trace, ghost at': seq<nat>)
    requires Sound(store.View()) && Leads(t, from, store.View()) && Progress(t, at, doneAt, requests, i)
    requires i < |requests| && i <= Processed(requests)
    requires requests[i].message.Some? && requests[i].freshId != ""
    modifies store
    ensures Sound(store.View()) && Leads(later, from, store.View())
    ensures |at'| == i + 1 && Placed(later, at', StoreCalls(requests[..i + 1]))
    ensures |doneAt| == i && Finished(at', doneAt, |later.events|)
    ensures Progress(later, at', doneAt + [|later.events|], requests, i + 1)
    ensures before == after == [] ==> |later.events| == |t.events| + 1
    ensures id == Filled(requests[i]).id
  {
    hide Sound, Leads, Placed, Finished, Filled, StoreCalls, AckIds;
    PrefixNext(requests, i);
    id, later, at' := StoreOne(store, requests[i], before, t, at, StoreCalls(requests[..i]), from);
    ghost var stored := later;
    later := Others(store, after, later, from);
    PlacedLater(stored, at', StoreCalls(requests[..i + 1]), later);
    FinishedNext(at, doneAt, |t.events|, at'[i], |stored.events|, |later.events|);
  }

  /** Fills in what the message lacks and stores it. */
  method StoreOne(store: InMemoryStore, r: PublishRequest, others: seq<Event>,
                  ghost t: Trace, ghost at: seq<nat>, ghost calls: seq<Event>, ghost from: State)
      returns (id: string, ghost later: Trace, ghost at': seq<nat>)
    requires Sound(store.View()) && Leads(t, from, store.View()) && Placed(t, at, calls)
    requires r.message.Some? && r.freshId != ""
    modifies store
    ensures Sound(store.View()) && Leads(later, from, store.View()) && Placed(later, at', calls + [StoreCall(r)])
    ensures |at'| == |at| + 1 && at' == at + [at'[|at|]] && |t.events| <= at'[|at|] < |later.events|
    ensures others == [] ==> |later.events| == |t.events| + 1
    ensures id == Filled(r).id
  {
    hide Sound, Leads, Placed, Step, Enabled, MessageStore.Store, Stamped;
    later := Others(store, others, t, from);
    PlacedLater(t, at, calls, later);
    var m := r.message.value;
    if m.id == "" { m := m.(id := r.freshId); }
    if m.time.None? { m := m.(time := Some(r.now)); }
    FilledIs(store.View(), r, m);
    ghost var before := store.View();
    store.Store(m, r.freshId, r.now);
    id := m.id;
    at' := at + [|later.events|];
    PlacedNext(later, at, calls, StoreCall(r), store.View());
    LeadsOn(later, from, before, StoreCall(r));
    later := Then(later, StoreCall(r), store.View());
  }

  /** A message that was filled in is stored as it is. */
  lemma FilledIs(s: State, r: PublishRequest, m: Message)
    requires r.message.Some? && r.freshId != ""
    requires var n := if r.message.value.id == "" then r.message.value.(id := r.freshId) else r.message.value;
             m == if n.time.None? then n.(time := Some(r.now)) else n
    ensures m == Filled(r) && Stamped(m, r.freshId, r.now) == m && m.id != ""
    ensures Enabled(s, StoreCall(r)) && Step(s, StoreCall(r)) == MessageStore.Store(s, m)
    ensures Enabled(s, Stores(m, r.freshId, r.now))
  {
    hide MessageStore.Store;
  }

  lemma FinishedNext(at: seq<nat>, doneAt: seq<nat>, length: nat, x: nat, stored: nat, now: nat)
    requires Finished(at, doneAt, length) && |at| == |doneAt| && length <= x < stored <= now
    ensures Finished(at + [x], doneAt, now) && Finished(at + [x], doneAt + [now], now)
  {
  }

  lemma NothingProcessed(t: Trace, requests: seq<PublishRequest>)
    ensures StoreCalls(requests[..0]) == [] && AckIds(requests[..0]) == []
    ensures Progress(t, [], [], requests, 0)
  {
  }

  lemma {:induction false} AllProcessed(requests: seq<PublishRequest>)
    ensures Processed(requests) == |requests| ==> StoredCount(requests) == |requests|
  {
  }

  lemma {:induction false} PrefixNext(requests: seq<PublishRequest>, i: nat)
    requires i < |requests| && i <= Processed(requests)
    ensures var r := requests[i];
            && (Stops(r) <==> Processed(requests) == i)
            && (Stops(r) ==> StoredCount(requests) == if r.message.Some? then i + 1 else i)
            && StoreCalls(requests[..i + 1])
               == (if r.message.Some? then StoreCalls(requests[..i]) + [StoreCall(r)] else StoreCalls(requests[..i]))
            && AckIds(requests[..i + 1])
               == (if r.message.Some? && r.waitForAck then AckIds(requests[..i]) + [Filled(r).id]
                   else AckIds(requests[..i]))
  {
    FirstStop(requests, i);
    assert requests[..i + 1][..i] == requests[..i];
  }

  // What publishing promises, whatever other clients do in between.

  lemma {:induction false} AllStored(requests: seq<PublishRequest>, i: nat)
    requires i < |requests| && forall j :: 0 <= j < |requests| ==> requests[j].message.Some?
    ensures |Prepared(requests)| == |StoreCalls(requests)| == |requests|
    ensures Prepared(requests)[i] == Filled(requests[i]) && StoreCalls(requests)[i] == StoreCall(requests[i])
  {
    hide Filled, StoreCall;
    var n := |requests| - 1;
    if n > 0 { AllStored(requests[..n], if i < n then i else 0); }
  }

  /** The place of request i's message in the history, fixed when it is stored. */
  lemma {:induction false} PublishedAt(t: Trace, from: State, to: State, at: seq<nat>, requests: seq<PublishRequest>,
                                       i: nat, j: nat)
    requires Leads(t, from, to) && Placed(t, at, StoreCalls(requests))
    requires forall k :: 0 <= k < |requests| ==> requests[k].message.Some? && requests[k].freshId != ""
    requires i < |requests| == |at| && at[i] < j < |t.states|
    ensures |from.published| <= |t.states[at[i]].published| < |t.states[j].published|
    ensures t.states[j].published[|t.states[at[i]].published|] == Filled(requests[i])
  {
    AllStored(requests, i);
    var r, s := requests[i], t.states[at[i]];
    assert t.events[at[i]] == StoreCall(r);
    hide Placed, StoreCalls;
    PathStep(t.states, t.events, at[i]);
    HistoryLater(t.states, t.events, 0, at[i]);
    HistoryLater(t.states, t.events, at[i] + 1, j);
    hide Path, Leads;
    assert t.states[at[i] + 1].published == s.published + [Filled(r)];
  }

  /** Request i is done after position f[i] of the publish history was written. */
  ghost predicate DoneAfter(t: Trace, doneAt: seq<nat>, f: seq<nat>) {
    |doneAt| <= |f|
    && forall i :: 0 <= i < |doneAt| ==> doneAt[i] < |t.states| && f[i] < |t.states[doneAt[i]].published|
  }

  /** The messages appear in the publish history in request order, each before its request is
      acknowledged. */
  lemma {:induction false} PublishedInOrder(t: Trace, from: State, to: State, at: seq<nat>, doneAt: seq<nat>,
                                            requests: seq<PublishRequest>)
    requires Leads(t, from, to) && Placed(t, at, StoreCalls(requests)) && Finished(at, doneAt, |t.events|)
    requires forall k :: 0 <= k < |requests| ==> requests[k].message.Some? && requests[k].freshId != ""
    ensures exists f :: Embeds(f, Prepared(requests), to.published) && DoneAfter(t, doneAt, f)
  {
    hide *;
    var f := PublishedPlaces(t, from, to, at, doneAt, requests);
  }

  lemma PublishedPlaces(t: Trace, from: State, to: State, at: seq<nat>, doneAt: seq<nat>,
                        requests: seq<PublishRequest>)
      returns (f: seq<nat>)
    requires Leads(t, from, to) && Placed(t, at, StoreCalls(requests)) && Finished(at, doneAt, |t.events|)
    requires forall k :: 0 <= k < |requests| ==> requests[k].message.Some? && requests[k].freshId != ""
    ensures Embeds(f, Prepared(requests), to.published) && DoneAfter(t, doneAt, f)
  {
    hide Leads, StoreCalls, Prepared, Filled;
    LeadsLength(t, from, to);
    if requests != [] { AllStored(requests, 0); } else { NothingStored(); }
    f := seq(|at|, i requires 0 <= i < |at| => |t.states[at[i]].published|);
    forall i | 0 <= i < |at|
      ensures f[i] < |to.published| && to.published[f[i]] == Prepared(requests)[i]
      ensures i < |doneAt| ==> doneAt[i] < |t.states| && f[i] < |t.states[doneAt[i]].published|
      ensures forall j :: i < j < |at| ==> f[i] < f[j]
    {
      AllStored(requests, i);
      PublishedAt(t, from, to, at, requests, i, |t.events|);
      if i < |doneAt| { PublishedAt(t, from, to, at, requests, i, doneAt[i]); }
      forall j | i < j < |at|
        ensures f[i] < f[j]
      {
        PublishedAt(t, from, to, at, requests, i, at[j]);
      }
    }
  }

  lemma NothingStored()
    ensures Prepared([]) == [] && StoreCalls([]) == []
  {
  }

  /** The store has the message right after its call at position i, and still at position j exactly
      if it is not gone in between. */
  ghost predicate Kept(t: Trace, m: Message, i: nat, j: nat) {
    && i < j <= |t.events| < |t.states| && m.id != ""
    && m.id in t.states[i + 1].messages && t.states[i + 1].messages[m.id] == m
    && (m.id in t.states[j].messages <==> !Gone(t.events, m.id, i + 1, j))
  }

  /** An acknowledged id is not empty and names the request's message.  The store has it from the
      store call on, and still when the acknowledgment is sent exactly if no other client deleted it
      or closed the store in between without its being stored again. */
  lemma {:induction false} AckedIsPublished(t: Trace, from: State, to: State, at: seq<nat>, doneAt: seq<nat>,
                                            requests: seq<PublishRequest>, i: nat)
    requires Leads(t, from, to) && Placed(t, at, StoreCalls(requests)) && Finished(at, doneAt, |t.events|)
    requires forall k :: 0 <= k < |requests| ==> requests[k].message.Some? && requests[k].freshId != ""
    requires i < |doneAt|
    ensures i < |requests| && Kept(t, Filled(requests[i]), at[i], doneAt[i])
  {
    if requests != [] { AllStored(requests, 0); } else { NothingStored(); }
    LeadsLength(t, from, to);
    hide StoreCalls, Filled;
    PublishedAt(t, from, to, at, requests, i, doneAt[i]);
    var id := Filled(requests[i]).id;
    PublishedStored(t, from, to, at, requests, i);
    StoredUnlessGone(t.states, t.events, at[i] + 1, doneAt[i], id);
  }

  lemma {:induction false} PublishedStored(t: Trace, from: State, to: State, at: seq<nat>,
                                           requests: seq<PublishRequest>, i: nat)
    requires Leads(t, from, to) && Placed(t, at, StoreCalls(requests))
    requires forall k :: 0 <= k < |requests| ==> requests[k].message.Some? && requests[k].freshId != ""
    requires i < |requests| == |at|
    ensures at[i] + 1 < |t.states|
    ensures var m, messages := Filled(requests[i]), t.states[at[i] + 1].messages;
            m.id in messages && messages[m.id] == m
  {
    AllStored(requests, i);
    assert t.events[at[i]] == StoreCall(requests[i]);
    PathStep(t.states, t.events, at[i]);
  }

  /** Without other clients the store ends up with exactly the messages stored one after the other. */
  lemma {:induction false} PublishAlone(t: Trace, from: State, to: State, at: seq<nat>, requests: seq<PublishRequest>)
    requires Leads(t, from, to) && Placed(t, at, StoreCalls(requests)) && |t.events| == |requests|
    requires forall k :: 0 <= k < |requests| ==> requests[k].message.Some? && requests[k].freshId != ""
    ensures to == StoredAll(from, Prepared(requests))
    ensures to.published == from.published + Prepared(requests)
  {
    if requests != [] { AllStored(requests, 0); } else { NothingStored(); }
    PlacedAlone(t, at, StoreCalls(requests));
    StoredPath(t, requests, |requests|);
    assert requests[..|requests|] == requests;
    StoredPublishes(from, Prepared(requests));
  }

  lemma {:induction false} StoredPath(t: Trace, requests: seq<PublishRequest>, n: nat)
    requires Path(t.states, t.events) && t.events == StoreCalls(requests) && n <= |requests| == |t.events|
    requires forall k :: 0 <= k < |requests| ==> requests[k].message.Some? && requests[k].freshId != ""
    ensures t.states[n] == StoredAll(t.states[0], Prepared(requests[..n]))
  {
    hide Path, StoreCalls, MessageStore.Store, Filled, Step;
    PathLength(t.states, t.events);
    if n == 0 {
    } else {
      StoredPath(t, requests, n - 1);
      AllStored(requests, n - 1);
      PathStep(t.states, t.events, n - 1);
      FilledAgain(t.states[n - 1], requests[n - 1]);
      assert requests[..n][..n - 1] == requests[..n - 1];
      StoredNext(t.states[0], Prepared(requests[..n - 1]), Filled(requests[n - 1]));
    }
  }

  lemma FilledAgain(s: State, r: PublishRequest)
    requires r.message.Some? && r.freshId != ""
    ensures Step(s, StoreCall(r)) == MessageStore.Store(s, Filled(r))
  {
    hide MessageStore.Store;
  }

  /** The state after storing messages one after the other. */
  ghost function StoredAll(s: State, messages: seq<Message>): State {
    if messages == [] then s
    else MessageStore.Store(StoredAll(s, messages[..|messages| - 1]), messages[|messages| - 1])
  }

  lemma {:induction false} StoredNext(s: State, messages: seq<Message>, m: Message)
    ensures StoredAll(s, messages + [m]) == MessageStore.Store(StoredAll(s, messages), m)
  {
    assert (messages + [m])[..|messages|] == messages;
  }

  lemma {:induction false} StoredPublishes(s: State, messages: seq<Message>)
    ensures StoredAll(s, messages).published == s.published + messages
  {
    hide MessageStore.Store;
    if messages == [] {
    } else {
      var n := |messages| - 1;
      StoredPublishes(s, messages[..n]);
      StorePublishes(StoredAll(s, messages[..n]), messages[n]);
      assert messages == messages[..n] + [messages[n]];
    }
  }

  lemma StorePublishes(s: State, m: Message)
    ensures MessageStore.Store(s, m).published == s.published + [m]
  {
  }

  // ----- the request loop and its results together -----

  /** What the loop's calls leave in the store, for the requests it stored. */
  lemma {:induction false} CallsAreKept(t: Trace, from: State, to: State, at: seq<nat>, doneAt: seq<nat>,
                                        requests: seq<PublishRequest>)
    requires Leads(t, from, to) && Finished(at, doneAt, |t.events|)
    requires |at| == StoredCount(requests) && Placed(t, at, StoreCalls(requests[..StoredCount(requests)]))
    requires forall j :: 0 <= j < |requests| ==> requests[j].freshId != ""
    ensures |doneAt| <= |at|
    ensures var stored := requests[..StoredCount(requests)];
            && (exists f :: Embeds(f, Prepared(stored), to.published) && DoneAfter(t, doneAt, f))
            && (forall i :: 0 <= i < |doneAt| ==>
                  stored[i].message.Some? && Kept(t, Filled(stored[i]), at[i], doneAt[i]))
            && (|t.events| == |at| ==> to == StoredAll(from, Prepared(stored)))
  {
    assert |doneAt| <= |at|;
    hide Leads, Placed, Finished, Embeds, DoneAfter, Kept, Filled, StoreCalls, Prepared, StoredAll;
    var stored := requests[..StoredCount(requests)];
    StoredHaveMessages(requests);
    PublishedInOrder(t, from, to, at, doneAt, stored);
    forall i | 0 <= i < |doneAt|
      ensures stored[i].message.Some? && Kept(t, Filled(stored[i]), at[i], doneAt[i])
    {
      AckedIsPublished(t, from, to, at, doneAt, stored, i);
    }
    if |t.events| == |at| { PublishAlone(t, from, to, at, stored); }
  }

  /** A whole stream of requests: whatever others do in between, the acknowledged ids are those of the
      processed requests that asked for it, and the messages of the stored requests are in the publish
      history in request order, each before its request is done.  Without others nothing else is. */
  method PublishStream(store: InMemoryStore, requests: seq<PublishRequest>, ending: Ending, others: seq<seq<Event>>)
      returns (status: Status, acks: seq<string>, ghost t: Trace, ghost at: seq<nat>, ghost doneAt: seq<nat>)
    requires Sound(store.View())
    requires forall j :: 0 <= j < |requests| ==> requests[j].freshId != ""
    modifies store
    ensures Sound(store.View()) && Leads(t, old(store.View()), store.View())
    ensures |doneAt| <= |at| <= |requests| && |doneAt| == Processed(requests) && |at| == StoredCount(requests)
    ensures acks == AckIds(requests[..|doneAt|]) && AcksOf(acks, requests[..|doneAt|])
    ensures forall i :: 0 <= i < |doneAt| ==>
              requests[i].message.Some? && (requests[i].waitForAck ==> !requests[i].expired && requests[i].sends)
    ensures |doneAt| < |requests| ==>
              var r := requests[|doneAt|];
              r.message.None? || (r.waitForAck && (r.expired || !r.sends))
    ensures status == if |doneAt| == |requests| then (if ending == EndOfStream then OK else Internal)
                      else if requests[|doneAt|].message.None? then InvalidArgument
                      else if requests[|doneAt|].expired then DeadlineExceeded else Internal
    ensures var stored := requests[..StoredCount(requests)];
            && (exists f :: Embeds(f, Prepared(stored), store.View().published) && DoneAfter(t, doneAt, f))
            && (forall i :: 0 <= i < |doneAt| ==>
                  stored[i].message.Some? && Kept(t, Filled(stored[i]), at[i], doneAt[i]))
            && (Alone(others) ==> store.View() == StoredAll(old(store.View()), Prepared(stored)))
  {
    hide *;
    status, acks, t, at, doneAt := Publish(store, requests, ending, others);
    AckIdsAre(requests[..|doneAt|]);
    CallsAreKept(t, old(store.View()), store.View(), at, doneAt, requests);
  }
}
