/** The subscriber service's acknowledgment and delivery loops, among the calls of other clients. */
module SubscriberService {
  import opened Wrappers
  import opened MessageStore
  import opened InMemoryStores
  import opened Interleaving
  import Claims

  // ----- acknowledging -----

  datatype AckRequest = AckRequest(messageId: string, consumerId: string)

  predicate Complete(r: AckRequest) {
    r.messageId != "" && r.consumerId != ""
  }

  predicate Acceptable(s: State, r: AckRequest) {
    Complete(r) && r.messageId in s.messages
  }

  function AckCall(r: AckRequest): Event {
    Acknowledges(r.messageId, r.consumerId)
  }

  function AckCalls(requests: seq<AckRequest>): (calls: seq<Event>)
    ensures |calls| == |requests| && forall i :: 0 <= i < |calls| ==> calls[i] == AckCall(requests[i])
  {
    seq(|requests|, i requires 0 <= i < |requests| => AckCall(requests[i]))
  }

  /** The first k requests found their message, each at the moment of its call.  The next, if there is
      one, lacks a field, and no call is made, or its call found no message. */
  ghost predicate Accepted(t: Trace, at: seq<nat>, requests: seq<AckRequest>, k: nat) {
    && k <= |at| <= |requests| && |t.states| == |t.events| + 1
    && Placed(t, at, AckCalls(requests[..|at|]))
    && (forall i :: 0 <= i < k ==> Acceptable(t.states[at[i]], requests[i]))
    && if k == |requests| || !Complete(requests[k]) then |at| == k
       else |at| == k + 1 && requests[k].messageId !in t.states[at[k]].messages
  }

  /** Acknowledges until the stream ends or a request is refused.  others[i] are the calls that other
      clients make before request i. */
  method Acknowledge(store: InMemoryStore, requests: seq<AckRequest>, ending: Ending, others: seq<seq<Event>>)
      returns (status: Status, ackCount: nat, ghost t: Trace, ghost at: seq<nat>)
    requires Sound(store.View())
    modifies store
    ensures Sound(store.View()) && Leads(t, old(store.View()), store.View())
    ensures ackCount <= |requests| && Accepted(t, at, requests, ackCount)
    ensures Alone(others) ==> |t.events| == |at|
    ensures status == if ackCount == |requests| then (if ending == EndOfStream then OK else Internal)
                      else if requests[ackCount].messageId != "" && requests[ackCount].consumerId != "" then Internal
                      else InvalidArgument
    ensures forall i :: 0 <= i < ackCount ==> Found(t, at, requests, i)
    ensures ackCount < |requests| ==>
              var r := requests[ackCount];
              if r.messageId == "" || r.consumerId == "" then |at| == ackCount
              else
                && ackCount < |at| && at[ackCount] < |t.states|
                && r.messageId !in t.states[at[ackCount]].messages
  {
    hide Sound, Leads, Accepted, AckRun, Found;
    t, at := Trace([store.View()], []), [];
    ackCount := 0;
    LeadsNowhere(store.View());
    NothingAcked(t, requests);
    while ackCount < |requests|
      invariant ackCount == |at| <= |requests|
      invariant Sound(store.View()) && Leads(t, old(store.View()), store.View())
      invariant AckRun(t, at, requests)
      invariant Alone(others) ==> |t.events| == |at|
    {
      var r := requests[ackCount];
      ghost var was := t;
      t := Others(store, Turn(others, ackCount), t, old(store.View()));
      AckRunLater(was, at, requests, t, old(store.View()), store.View());
      AckRunStops(t, at, requests);
      if r.messageId == "" { AcceptedFields(t, at, requests, ackCount); return InvalidArgument, ackCount, t, at; }
      if r.consumerId == "" { AcceptedFields(t, at, requests, ackCount); return InvalidArgument, ackCount, t, at; }
      ghost var before := store.View();
      var found := store.Acknowledge(r.messageId, r.consumerId);
      AckRunNext(t, at, requests, old(store.View()), before);
      LeadsOn(t, old(store.View()), before, AckCall(r));
      at, t := at + [|t.events|], Then(t, AckCall(r), store.View());
      if !found { AcceptedFields(t, at, requests, ackCount); return Internal, ackCount, t, at; }
      ackCount := ackCount + 1;
    }
    AckRunStops(t, at, requests);
    AcceptedFields(t, at, requests, ackCount);
    status := if ending == EndOfStream then OK else Internal;
  }

  /** The call for request i is the event at its position, with the request's fields, which are not
      empty, and the message was stored at that moment. */
  ghost predicate Found(t: Trace, at: seq<nat>, requests: seq<AckRequest>, i: nat) {
    && i < |at| && i < |requests| && at[i] < |t.events| && at[i] < |t.states|
    && t.events[at[i]] == Acknowledges(requests[i].messageId, requests[i].consumerId)
    && requests[i].messageId != "" && requests[i].consumerId != ""
    && requests[i].messageId in t.states[at[i]].messages
  }

  lemma AcceptedFields(t: Trace, at: seq<nat>, requests: seq<AckRequest>, k: nat)
    requires Accepted(t, at, requests, k)
    ensures forall i :: 0 <= i < k ==> Found(t, at, requests, i)
    ensures k < |requests| ==>
              var r := requests[k];
              if r.messageId == "" || r.consumerId == "" then |at| == k
              else k < |at| && at[k] < |t.states| && r.messageId !in t.states[at[k]].messages
  {
    forall i | 0 <= i < k
      ensures Found(t, at, requests, i)
    {
      assert t.events[at[i]] == AckCalls(requests[..|at|])[i];
    }
    if k < |requests| && Complete(requests[k]) {
      assert t.events[at[k]] == AckCalls(requests[..|at|])[k];
    }
  }

  /** All calls so far were accepted. */
  ghost predicate AckRun(t: Trace, at: seq<nat>, requests: seq<AckRequest>) {
    && |at| <= |requests| && |t.states| == |t.events| + 1
    && Placed(t, at, AckCalls(requests[..|at|]))
    && forall i :: 0 <= i < |at| ==> Acceptable(t.states[at[i]], requests[i])
  }

  lemma NothingAcked(t: Trace, requests: seq<AckRequest>)
    requires |t.states| == |t.events| + 1
    ensures AckRun(t, [], requests)
  {
    assert AckCalls(requests[..0]) == [];
  }

  lemma AckRunLater(t: Trace, at: seq<nat>, requests: seq<AckRequest>, later: Trace, from: State, to: State)
    requires AckRun(t, at, requests) && Continues(t, later) && Leads(later, from, to)
    ensures AckRun(later, at, requests)
  {
    PlacedLater(t, at, AckCalls(requests[..|at|]), later);
  }

  lemma AckRunStops(t: Trace, at: seq<nat>, requests: seq<AckRequest>)
    requires AckRun(t, at, requests)
    ensures |at| == |requests| || !Complete(requests[|at|]) ==> Accepted(t, at, requests, |at|)
  {
  }

  lemma AckRunNext(t: Trace, at: seq<nat>, requests: seq<AckRequest>, from: State, s: State)
    requires AckRun(t, at, requests) && Leads(t, from, s) && |at| < |requests| && Complete(requests[|at|])
    ensures var r := requests[|at|];
            var d := MessageStore.Acknowledge(s, r.messageId, r.consumerId);
            && Enabled(s, AckCall(r)) && Step(s, AckCall(r)) == d
            && var later, at' := Then(t, AckCall(r), d), at + [|t.events|];
               if r.messageId in s.messages then AckRun(later, at', requests)
               else Accepted(later, at', requests, |at|)
  {
    var n := |at|;
    var r := requests[n];
    var d := MessageStore.Acknowledge(s, r.messageId, r.consumerId);
    PlacedNext(t, at, AckCalls(requests[..n]), AckCall(r), d);
    assert AckCalls(requests[..n + 1]) == AckCalls(requests[..n]) + [AckCall(r)];
    assert Then(t, AckCall(r), d).states[|t.events|] == s;
    hide Placed, Step;
  }

  /** After an accepted request its consumer has the message, and has it later exactly if no event
      took it away for good: another consumer's claim or acknowledgment, a deletion, or a close. */
  lemma AckLasts(t: Trace, from: State, to: State, at: seq<nat>, requests: seq<AckRequest>, k: nat, i: nat, j: nat)
    requires Leads(t, from, to) && Accepted(t, at, requests, k) && i < k && at[i] < j < |t.states|
    ensures var id, consumer := requests[i].messageId, requests[i].consumerId;
            && j <= |t.events| <= |t.states|
            && (ClaimedBy(t.states[j], id, consumer)
                <==> !Claims.Lost(t.states, t.events, at[i] + 1, j, id, consumer))
  {
    var id, consumer := requests[i].messageId, requests[i].consumerId;
    assert t.events[at[i]] == AckCall(requests[i]);
    PathStep(t.states, t.events, at[i]);
    assert ClaimedBy(t.states[at[i] + 1], id, consumer);
    hide Accepted, Placed;
    Claims.ClaimedUnlessLost(t.states, t.events, at[i] + 1, j, id, consumer);
  }

  /** The consumer that acknowledged an id last, or the one that had it before. */
  function LastAck(acks: map<string, string>, requests: seq<AckRequest>, id: string): Option<string> {
    if requests == [] then if id in acks then Some(acks[id]) else None
    else
      var r := requests[|requests| - 1];
      if r.messageId == id then Some(r.consumerId) else LastAck(acks, requests[..|requests| - 1], id)
  }

  /** Without other clients the loop only changes claims, each id ends up with the consumer that
      acknowledged it last, and it stops at the first request that could not be accepted at its start. */
  lemma AcknowledgeAlone(t: Trace, from: State, to: State, at: seq<nat>, requests: seq<AckRequest>, k: nat)
    requires Leads(t, from, to) && Accepted(t, at, requests, k) && |t.events| == |at|
    ensures to == from.(acks := to.acks) && AcksAre(to.acks, from.acks, requests[..k])
    ensures forall i :: 0 <= i < k ==> Acceptable(from, requests[i])
    ensures k < |requests| ==> !Acceptable(from, requests[k])
  {
    hide Path, AcksAre, Step, Accepted, Placed, Leads;
    AcceptedParts(t, from, to, at, requests, k);
    forall i | 0 <= i < k
      ensures Acceptable(from, requests[i])
    {
      AckPath(t, requests, k, i);
    }
    AckPath(t, requests, k, k);
    if |at| == k + 1 { RefusedStep(t, requests, k); }
  }

  ghost predicate AcksAre(acks: map<string, string>, before: map<string, string>, requests: seq<AckRequest>) {
    forall id :: LastAck(before, requests, id) == if id in acks then Some(acks[id]) else None
  }

  lemma AcceptedParts(t: Trace, from: State, to: State, at: seq<nat>, requests: seq<AckRequest>, k: nat)
    requires Leads(t, from, to) && Accepted(t, at, requests, k) && |t.events| == |at|
    ensures Path(t.states, t.events) && |t.states| == |t.events| + 1
    ensures k <= |at| <= |requests| && t.states[0] == from && t.states[|at|] == to
    ensures t.events == AckCalls(requests[..|at|])
    ensures forall i :: 0 <= i < k ==> Acceptable(t.states[i], requests[i])
    ensures if k == |requests| || !Complete(requests[k]) then |at| == k
            else |at| == k + 1 && requests[k].messageId !in t.states[k].messages
  {
    hide Path, Placed, Acceptable, Complete;
    PlacedAlone(t, at, AckCalls(requests[..|at|]));
    LeadsLength(t, from, to);
  }

  lemma RefusedStep(t: Trace, requests: seq<AckRequest>, k: nat)
    requires Path(t.states, t.events) && |t.events| == k + 1 <= |requests|
    requires t.events == AckCalls(requests[..k + 1]) && requests[k].messageId !in t.states[k].messages
    ensures t.states[k + 1] == t.states[k]
  {
    PathStep(t.states, t.events, k);
    hide Path;
  }

  lemma {:induction false} AckPath(t: Trace, requests: seq<AckRequest>, k: nat, n: nat)
    requires Path(t.states, t.events) && n <= k <= |t.events| <= |requests|
    requires t.events == AckCalls(requests[..|t.events|])
    requires forall i :: 0 <= i < k ==> Acceptable(t.states[i], requests[i])
    ensures t.states[n] == t.states[0].(acks := t.states[n].acks)
    ensures AcksAre(t.states[n].acks, t.states[0].acks, requests[..n])
  {
    if n == 0 {
    } else {
      AckPath(t, requests, k, n - 1);
      PathStep(t.states, t.events, n - 1);
      assert requests[..n][..n - 1] == requests[..n - 1];
    }
    hide Path;
  }

  // ----- delivering -----

  /** One round of the delivery loop: what others do before it, and whether its response can be sent. */
  datatype Round = Round(others: seq<Event>, sends: bool)

  predicate Ready(s: State, ch: nat) {
    ch < |s.channels| && (s.channels[ch].buffer != [] || !s.channels[ch].open)
  }

  /** What a receive yields: the next message, or nil from a closed empty channel. */
  function Head(c: Channel): Option<Message> {
    if c.buffer == [] then None else Some(c.buffer[0])
  }

  /** The responses that could be sent. */
  function Responses(received: seq<Option<Message>>, sends: seq<bool>): seq<Option<Message>>
    requires |received| <= |sends|
  {
    if received == [] then []
    else
      var n := |received| - 1;
      Responses(received[..n], sends) + if sends[n] then [received[n]] else []
  }

  function Sends(rounds: seq<Round>, when: seq<nat>): (r: seq<bool>)
    requires Within(when, |rounds|)
    ensures |r| == |when| && forall i :: 0 <= i < |r| ==> r[i] == rounds[when[i]].sends
  {
    seq(|when|, i requires 0 <= i < |when| => rounds[when[i]].sends)
  }

  /** The receives from the channel are the events at the given positions, and yield received. */
  ghost predicate Receipts(t: Trace, ch: nat, at: seq<nat>, received: seq<Option<Message>>) {
    && |t.states| == |t.events| + 1 && |at| == |received| && Increasing(at)
    && (forall i :: 0 <= i < |at| ==> Received(t, ch, at[i], received[i]))
    && (forall l: nat :: l < |t.events| && t.events[l] == Receives(ch) ==> l in at)
  }

  ghost predicate Received(t: Trace, ch: nat, l: nat, message: Option<Message>) {
    && l < |t.events| && l < |t.states| && ch < |t.states[l].channels|
    && t.events[l] == Receives(ch) && message == Head(t.states[l].channels[ch])
  }

  /** Round j looks at the channel at position turn[j]; the rounds in when find something to receive. */
  ghost predicate Looks(t: Trace, ch: nat, turn: seq<nat>, when: seq<nat>, at: seq<nat>) {
    && |when| == |at| && Increasing(when) && Within(when, |turn|) && Noticed(t, ch, turn, when)
    && (forall i :: 0 <= i < |when| ==> turn[when[i]] == at[i])
  }

  ghost predicate Noticed(t: Trace, ch: nat, turn: seq<nat>, when: seq<nat>) {
    Within(turn, |t.states|) && forall j: nat :: j < |turn| ==> (j in when <==> Ready(t.states[turn[j]], ch))
  }

  predicate Undisturbed(rounds: seq<Round>) {
    forall j :: 0 <= j < |rounds| ==> rounds[j].others == []
  }

  /** The delivery loop for a given number of rounds; it alone receives from its channel.  A round
      that finds the channel open and empty waits, a response that cannot be sent is gone, and a closed
      channel keeps yielding nil. */
  method Deliver(store: InMemoryStore, ch: nat, rounds: seq<Round>)
      returns (wire: seq<Option<Message>>, ghost received: seq<Option<Message>>,
               ghost t: Trace, ghost at: seq<nat>, ghost turn: seq<nat>, ghost when: seq<nat>)
    requires Sound(store.View()) && ch < |store.channels|
    requires forall j :: 0 <= j < |rounds| ==> Receives(ch) !in rounds[j].others
    modifies store
    ensures Sound(store.View()) && Leads(t, old(store.View()), store.View())
    ensures Receipts(t, ch, at, received)
    ensures |turn| == |rounds| && Looks(t, ch, turn, when, at)
    ensures wire == Responses(received, Sends(rounds, when)) && SentWhere(wire, received, rounds, when)
    ensures Undisturbed(rounds) ==> |t.events| == |received|
  {
    hide Sound, Leads, Receipts, Looks, Responses, Head;
    t, at, turn, when, received := Trace([store.View()], []), [], [], [], [];
    wire := [];
    LeadsNowhere(store.View());
    NoReceipts(store.View(), ch);
    for j := 0 to |rounds|
      invariant Sound(store.View()) && Leads(t, old(store.View()), store.View()) && ch < |store.channels|
      invariant |turn| == j && |when| == |received| && Within(when, j)
      invariant Receipts(t, ch, at, received) && Looks(t, ch, turn, when, at)
      invariant wire == Responses(received, Sends(rounds, when))
      invariant Undisturbed(rounds) ==> |t.events| == |received|
    {
      ghost var was := t;
      t := Others(store, rounds[j].others, t, old(store.View()));
      ghost var now := store.View();
      ReceiptsLater(was, ch, at, received, t, rounds[j].others, old(store.View()), now);
      LooksLater(was, ch, turn, when, at, t);
      ChannelStays(t, old(store.View()), now, ch);
      if store.channels[ch].buffer != [] || !store.channels[ch].open {
        LooksNext(t, ch, turn, when, at, old(store.View()), now);
        var message := ReceiveOne(store, ch);
        LeadsOn(t, old(store.View()), now, Receives(ch));
        ReceiptsNext(t, ch, at, received, old(store.View()), now, store.View());
        LooksLater(t, ch, turn + [|t.events|], when + [j], at + [|t.events|], Then(t, Receives(ch), store.View()));
        ResponsesNext(received, rounds, when, message, j);
        at, turn, when, received := at + [|t.events|], turn + [|t.events|], when + [j], received + [message];
        t := Then(t, Receives(ch), store.View());
        if rounds[j].sends { wire := wire + [message]; }
      } else {
        LooksNext(t, ch, turn, when, at, old(store.View()), now);
        turn := turn + [|t.events|];
      }
    }
    ResponsesAre(received, Sends(rounds, when));
  }

  /** wire lists, in order, what was received in the rounds whose response can be sent. */
  ghost predicate SentWhere(wire: seq<Option<Message>>, received: seq<Option<Message>>,
                            rounds: seq<Round>, when: seq<nat>)
  {
    && |when| == |received| && Within(when, |rounds|)
    && exists f: seq<nat> :: SentAt(f, wire, received, Sends(rounds, when))
  }

  /** f is where in received the responses that could be sent are. */
  ghost predicate SentAt(f: seq<nat>, wire: seq<Option<Message>>, received: seq<Option<Message>>, sends: seq<bool>)
    requires |received| <= |sends|
  {
    Embeds(f, wire, received) && forall i :: 0 <= i < |received| ==> (i in f <==> sends[i])
  }

  lemma {:induction false} ResponsesAre(received: seq<Option<Message>>, sends: seq<bool>)
    requires |received| <= |sends|
    ensures exists f: seq<nat> :: SentAt(f, Responses(received, sends), received, sends)
  {
    hide SentAt;
    var f: seq<nat> := [];
    if received == [] {
      NoneSent(sends);
    } else {
      var n := |received| - 1;
      ResponsesAre(received[..n], sends);
      f :| SentAt(f, Responses(received[..n], sends), received[..n], sends);
      SentNext(f, Responses(received[..n], sends), received[..n], sends, received[n]);
      assert received == received[..n] + [received[n]];
      assert Responses(received[..n], sends) + [] == Responses(received[..n], sends);
      if sends[n] { f := f + [n]; }
    }
    assert SentAt(f, Responses(received, sends), received, sends);
  }

  lemma NoneSent(sends: seq<bool>)
    ensures SentAt([], [], [], sends)
  {
  }

  lemma {:induction false} SentNext(f: seq<nat>, wire: seq<Option<Message>>, received: seq<Option<Message>>,
                                    sends: seq<bool>, message: Option<Message>)
    requires |received| < |sends| && SentAt(f, wire, received, sends)
    ensures if sends[|received|] then SentAt(f + [|received|], wire + [message], received + [message], sends)
            else SentAt(f, wire, received + [message], sends)
  {
    var n := |received|;
    assert forall i: nat :: i in f + [n] <==> i in f || i == n;
    assert n !in f;
  }

  method ReceiveOne(store: InMemoryStore, ch: nat) returns (message: Option<Message>)
    requires Sound(store.View()) && Ready(store.View(), ch)
    modifies store
    ensures Sound(store.View()) && |store.channels| == |old(store.channels)|
    ensures Enabled(old(store.View()), Receives(ch)) && store.View() == Step(old(store.View()), Receives(ch))
    ensures message == Head(old(store.channels)[ch])
  {
    message := store.Receive(ch);
  }

  lemma NoReceipts(s: State, ch: nat)
    ensures var t := Trace([s], []); Receipts(t, ch, [], []) && Looks(t, ch, [], [], []) && Responses([], []) == []
  {
  }

  lemma ReceiptsLater(t: Trace, ch: nat, at: seq<nat>, received: seq<Option<Message>>,
                      later: Trace, calls: seq<Event>, from: State, to: State)
    requires Receipts(t, ch, at, received) && Continues(t, later) && Leads(later, from, to)
    requires Receives(ch) !in calls
    requires forall i :: |t.events| <= i < |later.events| ==> Among(later.events[i], calls)
    ensures Receipts(later, ch, at, received)
  {
    NotAmong(ch, calls);
    hide Path;
    forall i | 0 <= i < |at|
      ensures Received(later, ch, at[i], received[i])
    {
      assert Received(t, ch, at[i], received[i]);
    }
  }

  lemma NotAmong(ch: nat, calls: seq<Event>)
    requires Receives(ch) !in calls
    ensures !Among(Receives(ch), calls)
  {
  }

  lemma ReceiptsNext(t: Trace, ch: nat, at: seq<nat>, received: seq<Option<Message>>, from: State, s: State, d: State)
    requires Receipts(t, ch, at, received) && Leads(t, from, s) && ch < |s.channels|
    ensures Receipts(Then(t, Receives(ch), d), ch, at + [|t.events|], received + [Head(s.channels[ch])])
  {
    hide Path, Head;
    var n, later := |t.events|, Then(t, Receives(ch), d);
    var at', received' := at + [n], received + [Head(s.channels[ch])];
    forall i | 0 <= i < |at|
      ensures at[i] < n && Received(later, ch, at[i], received[i])
    {
      assert Received(t, ch, at[i], received[i]);
    }
    assert later.states[n] == s && later.events[n] == Receives(ch) && at'[|at|] == n;
    forall l: nat | l < |later.events| && later.events[l] == Receives(ch)
      ensures l in at'
    {
      assert l in at' <==> l in at || l == n;
    }
  }

  lemma LooksLater(t: Trace, ch: nat, turn: seq<nat>, when: seq<nat>, at: seq<nat>, later: Trace)
    requires Looks(t, ch, turn, when, at) && Continues(t, later)
    ensures Looks(later, ch, turn, when, at)
  {
    hide Ready;
    assert forall j :: 0 <= j < |turn| ==> later.states[turn[j]] == t.states[turn[j]];
  }

  lemma IncreasingNext(a: seq<nat>, n: nat)
    requires Increasing(a) && Within(a, n)
    ensures Increasing(a + [n]) && Within(a + [n], n + 1) && Within(a, n + 1)
  {
  }

  lemma LooksNext(t: Trace, ch: nat, turn: seq<nat>, when: seq<nat>, at: seq<nat>, from: State, s: State)
    requires Looks(t, ch, turn, when, at) && Leads(t, from, s)
    ensures var n := |t.events|;
            if Ready(s, ch) then Looks(t, ch, turn + [n], when + [|turn|], at + [n])
            else Looks(t, ch, turn + [n], when, at)
  {
    hide Leads, Ready, Increasing, Noticed;
    LeadsLength(t, from, s);
    IncreasingNext(when, |turn|);
    NoticedNext(t, ch, turn, when, |t.events|);
  }

  lemma NoticedNext(t: Trace, ch: nat, turn: seq<nat>, when: seq<nat>, n: nat)
    requires Noticed(t, ch, turn, when) && Within(when, |turn|) && n < |t.states|
    ensures Noticed(t, ch, turn + [n], if Ready(t.states[n], ch) then when + [|turn|] else when)
  {
    hide Ready;
    var turn' := turn + [n];
    var when' := if Ready(t.states[n], ch) then when + [|turn|] else when;
    forall j: nat | j < |turn'|
      ensures j in when' <==> Ready(t.states[turn'[j]], ch)
    {
      assert j in when + [|turn|] <==> j in when || j == |turn|;
      if j < |turn| { assert turn'[j] == turn[j]; }
    }
  }

  lemma {:induction false} ResponsesNext(received: seq<Option<Message>>, rounds: seq<Round>, when: seq<nat>,
                                         message: Option<Message>, j: nat)
    requires |received| == |when| && Within(when, |rounds|) && j < |rounds|
    ensures var before := Responses(received, Sends(rounds, when));
            Responses(received + [message], Sends(rounds, when + [j]))
            == if rounds[j].sends then before + [message] else before
  {
    assert (received + [message])[..|received|] == received;
    ResponsesPrefix(received, Sends(rounds, when), Sends(rounds, when + [j]));
  }

  lemma {:induction false} ResponsesPrefix(received: seq<Option<Message>>, sends: seq<bool>, more: seq<bool>)
    requires |received| <= |sends| && sends <= more
    ensures Responses(received, sends) == Responses(received, more)
  {
    if received == [] {
    } else {
      ResponsesPrefix(received[..|received| - 1], sends, more);
    }
  }

  lemma ChannelStays(t: Trace, from: State, to: State, ch: nat)
    requires Leads(t, from, to) && Sound(from) && ch < |from.channels|
    ensures ch < |to.channels|
  {
    ChannelLater(t.states, t.events, 0, |t.events|, ch);
  }

  /** The messages among what was received. */
  function Messages(received: seq<Option<Message>>): seq<Message> {
    if received == [] then []
    else
      var n := |received| - 1;
      Messages(received[..n]) + match received[n] { case Some(m) => [m] case None => [] }
  }

  /** Whatever others do meanwhile, the loop receives each message of its channel once and in order,
      and nil only from a closed channel. */
  lemma {:induction false} DeliveredInOrder(t: Trace, from: State, to: State, ch: nat, at: seq<nat>,
                                            received: seq<Option<Message>>)
    requires Leads(t, from, to) && Sound(from) && Receipts(t, ch, at, received) && ch < |from.channels|
    ensures ch < |to.channels| && to.channels[ch].consumed == from.channels[ch].consumed + Messages(received)
    ensures forall i :: 0 <= i < |received| && received[i].None? ==>
              at[i] < |t.states| && ch < |t.states[at[i]].channels| && !t.states[at[i]].channels[ch].open
  {
    ReceiptsBefore(t, ch, at, received);
    ConsumedAt(t, ch, at, received, |received|, |t.events|);
    assert received[..|received|] == received;
    forall i | 0 <= i < |received| && received[i].None?
      ensures at[i] < |t.states| && ch < |t.states[at[i]].channels| && !t.states[at[i]].channels[ch].open
    {
      assert Received(t, ch, at[i], received[i]);
      PathStep(t.states, t.events, at[i]);
    }
  }

  lemma ReceiptsBefore(t: Trace, ch: nat, at: seq<nat>, received: seq<Option<Message>>)
    requires Receipts(t, ch, at, received)
    ensures |at| == |received| && forall i :: 0 <= i < |at| ==> at[i] < |t.events|
  {
    assert forall i :: 0 <= i < |at| ==> Received(t, ch, at[i], received[i]);
  }

  /** Up to position l of the trace, which m receives precede, exactly their messages are consumed. */
  lemma {:induction false} ConsumedAt(t: Trace, ch: nat, at: seq<nat>, received: seq<Option<Message>>, m: nat, l: nat)
    requires Path(t.states, t.events) && Sound(t.states[0]) && ch < |t.states[0].channels|
    requires Receipts(t, ch, at, received) && Precede(at, m, l) && l < |t.states|
    ensures m <= |received| && ch < |t.states[l].channels|
    ensures t.states[l].channels[ch].consumed == t.states[0].channels[ch].consumed + Messages(received[..m])
    decreases l
  {
    hide Path, Messages, Received, Sound, Precede, Receipts;
    ReceiptsBefore(t, ch, at, received);
    if l == 0 {
      NonePrecede(at, m);
      NoMessages(received);
    } else {
      PathLength(t.states, t.events);
      ReceivedBefore(t, ch, at, received, m, l);
      ConsumedAt(t, ch, at, received, if t.events[l - 1] == Receives(ch) then m - 1 else m, l - 1);
      ConsumedStep(t, ch, l - 1);
      if t.events[l - 1] == Receives(ch) {
        ReceivedIs(t, ch, l - 1, received[m - 1]);
        MessagesNext(received, m);
      }
    }
  }

  ghost predicate Precede(at: seq<nat>, m: nat, l: nat) {
    m <= |at| && forall i :: 0 <= i < |at| ==> (i < m <==> at[i] < l)
  }

  lemma NonePrecede(at: seq<nat>, m: nat)
    requires Precede(at, m, 0)
    ensures m == 0
  {
    assert |at| > 0 ==> at[0] >= 0;
  }

  lemma NoMessages(received: seq<Option<Message>>)
    ensures Messages(received[..0]) == []
  {
  }

  lemma ReceivedIs(t: Trace, ch: nat, l: nat, message: Option<Message>)
    requires Received(t, ch, l, message)
    ensures l < |t.states| && ch < |t.states[l].channels| && message == Head(t.states[l].channels[ch])
  {
  }

  /** Whether event l - 1 is one of the receives, and then which. */
  lemma ReceivedBefore(t: Trace, ch: nat, at: seq<nat>, received: seq<Option<Message>>, m: nat, l: nat)
    requires Receipts(t, ch, at, received) && Precede(at, m, l) && 0 < l < |t.states|
    ensures |t.states| == |t.events| + 1
    ensures if t.events[l - 1] == Receives(ch)
            then 0 < m <= |received| && Received(t, ch, l - 1, received[m - 1]) && Precede(at, m - 1, l - 1)
            else Precede(at, m, l - 1)
  {
    hide Received;
    if t.events[l - 1] == Receives(ch) {
      assert l - 1 in at;
      var x :| 0 <= x < |at| && at[x] == l - 1;
      assert x < m && at[m - 1] < l;
      assert x == m - 1;
    } else {
      forall i | 0 <= i < |at|
        ensures at[i] != l - 1
      {
        assert Received(t, ch, at[i], received[i]);
        ReceivedAt(t, ch, at[i], received[i]);
      }
    }
  }

  lemma ReceivedAt(t: Trace, ch: nat, l: nat, message: Option<Message>)
    requires Received(t, ch, l, message)
    ensures l < |t.events| && t.events[l] == Receives(ch)
  {
  }

  lemma MessagesNext(received: seq<Option<Message>>, m: nat)
    requires 0 < m <= |received|
    ensures Messages(received[..m])
         == if received[m - 1].Some? then Messages(received[..m - 1]) + [received[m - 1].value]
            else Messages(received[..m - 1])
  {
    assert received[..m][..m - 1] == received[..m - 1];
  }

  lemma ConsumedStep(t: Trace, ch: nat, l: nat)
    requires Path(t.states, t.events) && Sound(t.states[0]) && l < |t.events| && ch < |t.states[l].channels|
    ensures ch < |t.states[l + 1].channels|
    ensures var c, d := t.states[l].channels[ch], t.states[l + 1].channels[ch];
            d.consumed == if t.events[l] == Receives(ch) && c.buffer != [] then c.consumed + [c.buffer[0]]
                          else c.consumed
  {
    PathSound(t.states, t.events, l);
    PathStep(t.states, t.events, l);
    ChannelStep(t.states[l], t.events[l], ch);
  }

  /** What the first n receives from a channel yield if nothing is sent to it: its buffer, then nil. */
  function FirstReceives(buffer: seq<Message>, n: nat): (r: seq<Option<Message>>)
    ensures |r| == n
  {
    seq(n, i => if 0 <= i < |buffer| then Some(buffer[i]) else None)
  }

  /** The channel after n receives. */
  function Drained(c: Channel, n: nat): Channel {
    var k := Min(n, |c.buffer|);
    c.(buffer := c.buffer[k..], consumed := c.consumed + c.buffer[..k])
  }

  /** Without other clients the loop receives the buffer and then nil, in every round unless an open
      channel runs empty first. */
  lemma DeliverAlone(t: Trace, from: State, to: State, ch: nat, at: seq<nat>, received: seq<Option<Message>>,
                     turn: seq<nat>, when: seq<nat>)
    requires Leads(t, from, to) && ch < |from.channels| && Receipts(t, ch, at, received)
    requires Looks(t, ch, turn, when, at) && |t.events| == |received|
    ensures ch < |to.channels| && to.channels[ch] == Drained(from.channels[ch], |received|)
    ensures received == FirstReceives(from.channels[ch].buffer, |received|)
    ensures |received| == |turn| || (to.channels[ch].open && to.channels[ch].buffer == [])
  {
    ReceiptsBefore(t, ch, at, received);
    forall i | 0 <= i < |at|
      ensures at[i] == i && Received(t, ch, i, received[i]) && t.events[i] == Receives(ch)
    {
      IncreasingAtLeast(at, i);
      IncreasingAtMost(at, i, |t.events|);
      ReceivedAt(t, ch, at[i], received[i]);
    }
    LeadsLength(t, from, to);
    DrainPath(t, ch, |received|);
    forall i | 0 <= i < |received|
      ensures received[i] == FirstReceives(from.channels[ch].buffer, |received|)[i]
    {
      DrainPath(t, ch, i);
      ReceivedIs(t, ch, i, received[i]);
    }
    if |received| != |turn| { WaitedAtEnd(t, ch, turn, when, at); }
  }

  lemma {:induction false} DrainPath(t: Trace, ch: nat, n: nat)
    requires Path(t.states, t.events) && n <= |t.events| && ch < |t.states[0].channels|
    requires forall l :: 0 <= l < |t.events| ==> t.events[l] == Receives(ch)
    ensures ch < |t.states[n].channels| && t.states[n].channels[ch] == Drained(t.states[0].channels[ch], n)
  {
    if n == 0 {
    } else {
      DrainPath(t, ch, n - 1);
      PathStep(t.states, t.events, n - 1);
      DrainedNext(t.states[0].channels[ch], n - 1);
      hide Path, Drained;
    }
  }

  lemma DrainedNext(c: Channel, n: nat)
    ensures Drained(c, n + 1) == if Drained(c, n).buffer == [] then Drained(c, n) else Take(Drained(c, n))
  {
    if n < |c.buffer| { assert c.buffer[..n + 1] == c.buffer[..n] + [c.buffer[n]]; }
  }

  /** A round that waits finds no receive after it. */
  lemma WaitedAtEnd(t: Trace, ch: nat, turn: seq<nat>, when: seq<nat>, at: seq<nat>)
    requires Path(t.states, t.events) && Looks(t, ch, turn, when, at) && |when| != |turn|
    requires forall l :: 0 <= l < |t.events| ==> t.events[l] == Receives(ch)
    ensures !Ready(t.states[|t.events|], ch)
  {
    if when != [] { IncreasingAtMost(when, 0, |turn|); }
    var j := Skipped(when, |turn|);
    if turn[j] < |t.events| { PathStep(t.states, t.events, turn[j]); }
  }

  /** Fewer increasing numbers than there are below a bound leave one out. */
  lemma {:induction false} Skipped(when: seq<nat>, bound: nat) returns (j: nat)
    requires Increasing(when) && Within(when, bound) && |when| < bound
    ensures j < bound && j !in when
  {
    j := bound - 1;
    if when == [] || when[|when| - 1] != bound - 1 {
    } else {
      j := Skipped(when[..|when| - 1], bound - 1);
    }
  }
}
