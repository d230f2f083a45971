/** The collector's handling of one response and its acknowledgments. */
module Collectors {
  import opened Wrappers
  import opened Models
  import opened MessageStore
  import opened MemoryStorages

  // ----- the acknowledgment stream -----

  const ACK_CHUNK: nat := 100

  /** A client stream for acknowledgments.  budget is how many more operations succeed before the
      connection fails; sent is what reached the other side. */
  datatype AckStream = AckStream(open: bool, budget: nat, sent: seq<string>)

  /** Sending fails once the stream was closed for sending, or when the connection fails. */
  function Send(s: AckStream, id: string): (r: (AckStream, bool)) {
    if s.open && s.budget > 0 then (s.(budget := s.budget - 1, sent := s.sent + [id]), true) else (s, false)
  }

  function CloseAndRecv(s: AckStream): (r: (AckStream, bool)) {
    if s.open && s.budget > 0 then (s.(open := false, budget := s.budget - 1), true)
    else (s.(open := false), false)
  }

  /** What acknowledgeMessages does with a fresh stream: it sends the first chunk, closes the
      stream, and fails if there is a second chunk. */
  method AcknowledgeMessages(messageIDs: seq<string>, connection: Option<AckStream>)
      returns (ok: bool, stream: Option<AckStream>)
    requires connection.Some? ==> connection.value.open
    ensures stream.Some? <==> connection.Some?
    ensures connection.None? ==> (ok <==> messageIDs == [])
    ensures connection.Some? ==>
              var sent := messageIDs[..Min(connection.value.budget, Min(100, |messageIDs|))];
              && stream.value.sent == connection.value.sent + sent
              && (ok <==> messageIDs == [] || (|messageIDs| <= 100 && connection.value.budget > |messageIDs|))
  {
    stream := connection;
    if |messageIDs| == 0 { return true, stream; }
    if connection.None? { return false, stream; }
    var s := connection.value;
    var i := 0;
    while i < |messageIDs|
      invariant i == 0 || i == ACK_CHUNK
      invariant i == 0 ==> s == connection.value
      invariant i > 0 ==> !s.open && s.sent == connection.value.sent + messageIDs[..Min(ACK_CHUNK, |messageIDs|)]
                          && Min(ACK_CHUNK, |messageIDs|) < connection.value.budget
      decreases |messageIDs| - i
    {
      var end := if i + ACK_CHUNK > |messageIDs| then |messageIDs| else i + ACK_CHUNK;
      var k := i;
      while k < end
        invariant i <= k <= end
        invariant i == 0 ==> s.open && s.budget == connection.value.budget - k
        invariant i == 0 ==> s.sent == connection.value.sent + messageIDs[..k]
        invariant i > 0 ==> k == i && !s.open && s.sent == connection.value.sent + messageIDs[..ACK_CHUNK]
      {
        var r := Send(s, messageIDs[k]);
        s := r.0;
        if !r.1 { return false, Some(s); }
        assert messageIDs[..k + 1] == messageIDs[..k] + [messageIDs[k]];
        k := k + 1;
      }
      var r := CloseAndRecv(s);
      s := r.0;
      if !r.1 { return false, Some(s); }
      i := i + ACK_CHUNK;
    }
    return true, Some(s);
  }

  /** Of 101 ids only the first 100 are sent, over a connection that would carry them all. */
  method SecondChunkExample() returns (messageIDs: seq<string>, ok: bool, stream: AckStream)
    ensures |messageIDs| == 101
    ensures !ok && stream.sent == messageIDs[..100]
  {
    messageIDs := seq(101, _ => "id");
    var result;
    ok, result := AcknowledgeMessages(messageIDs, Some(AckStream(true, 1000, [])));
    stream := result.value;
  }

  // ----- one response -----

  /** What the loop over a response collects: the records and the ids of the messages that decode. */
  function Records(decode: Decoder, messages: seq<Message>): seq<Telemetry> {
    if messages == [] then []
    else
      var m := messages[|messages| - 1];
      Records(decode, messages[..|messages| - 1])
      + match decode(m.payload) { case Some(t) => [t] case None => [] }
  }

  function Ids(decode: Decoder, messages: seq<Message>): seq<string> {
    if messages == [] then []
    else
      var m := messages[|messages| - 1];
      Ids(decode, messages[..|messages| - 1]) + if decode(m.payload).Some? then [m.id] else []
  }

  /** at lists, in order, exactly the messages that decode. */
  ghost predicate Decoded(decode: Decoder, messages: seq<Message>, at: seq<nat>) {
    && Increasing(at) && Within(at, |messages|)
    && (forall j :: 0 <= j < |messages| ==> (j in at <==> decode(messages[j].payload).Some?))
  }

  /** There is one record and one id for each position in at, and both come from the message there. */
  ghost predicate Aligned(decode: Decoder, messages: seq<Message>, at: seq<nat>, records: seq<Telemetry>,
                          ids: seq<string>)
  {
    && Decoded(decode, messages, at)
    && |at| == |records| == |ids|
    && (forall i :: 0 <= i < |at| ==>
          Some(records[i]) == decode(messages[at[i]].payload) && ids[i] == messages[at[i]].id)
  }

  /** Record i and id i come from the same message, and undecodable messages give neither. */
  lemma {:induction false} RecordsAndIdsAlign(decode: Decoder, messages: seq<Message>) returns (at: seq<nat>)
    ensures Aligned(decode, messages, at, Records(decode, messages), Ids(decode, messages))
  {
    hide Aligned;
    if messages == [] {
      at := [];
      NoneAligned(decode);
    } else {
      var n := |messages| - 1;
      var before, m := messages[..n], messages[n];
      var records, ids := Records(decode, before), Ids(decode, before);
      at := RecordsAndIdsAlign(decode, before);
      AlignedNext(decode, before, at, records, ids, m);
      assert messages == before + [m];
      assert records + [] == records && ids + [] == ids;
      if decode(m.payload).Some? { at := at + [n]; }
    }
  }

  lemma NoneAligned(decode: Decoder)
    ensures Aligned(decode, [], [], [], [])
  {
  }

  lemma AlignedNext(decode: Decoder, messages: seq<Message>, at: seq<nat>, records: seq<Telemetry>, ids: seq<string>,
                    m: Message)
    requires Aligned(decode, messages, at, records, ids)
    ensures match decode(m.payload)
            case Some(t) => Aligned(decode, messages + [m], at + [|messages|], records + [t], ids + [m.id])
            case None => Aligned(decode, messages + [m], at, records, ids)
  {
    var n := |messages|;
    forall j: nat | j <= n && decode(m.payload).Some?
      ensures j in at + [n] <==> j in at || j == n
    {
    }
  }

  /** One pass of the receive loop: decode, store, acknowledge.  accepts says whether the storage
      takes the batch. */
  method HandleResponse(decode: Decoder, messages: seq<Message>, heartbeat: bool,
                        storage: MemoryStorage, accepts: bool, connection: Option<AckStream>)
      returns (stream: Option<AckStream>)
    requires storage.Valid() && (connection.Some? ==> connection.value.open)
    modifies storage
    ensures storage.Valid()
    ensures var records, ids := Records(decode, messages), Ids(decode, messages);
            if heartbeat || records == [] || !accepts
            then storage.log == old(storage.log) && stream == connection
            else
              && storage.log == old(storage.log) + records
              && (stream.Some? <==> connection.Some?)
              && (connection.Some? ==>
                    stream.value.sent == connection.value.sent
                      + ids[..Min(connection.value.budget, Min(100, |ids|))])
  {
    stream := connection;
    if heartbeat || |messages| == 0 { return; }
    var batch: seq<Telemetry> := [];
    var messageIDs: seq<string> := [];
    for i := 0 to |messages|
      invariant batch == Records(decode, messages[..i]) && messageIDs == Ids(decode, messages[..i])
    {
      assert messages[..i + 1][..i] == messages[..i];
      var decoded := decode(messages[i].payload);
      if decoded.None? { continue; }
      batch := batch + [decoded.value];
      messageIDs := messageIDs + [messages[i].id];
    }
    assert messages[..|messages|] == messages;
    if |batch| > 0 {
      if !accepts { return; }
      storage.Store(batch);
      var ok;
      SameLength(decode, messages);
      ok, stream := AcknowledgeMessages(messageIDs, connection);
    }
  }

  lemma {:induction false} SameLength(decode: Decoder, messages: seq<Message>)
    ensures |Records(decode, messages)| == |Ids(decode, messages)| <= |messages|
  {
    if messages == [] {
    } else {
      SameLength(decode, messages[..|messages| - 1]);
    }
  }

  /** Over a healthy connection every id of a response is acknowledged exactly if at most 100 of its
      messages decode; the one-message responses of the subscriber service always qualify. */
  lemma {:induction false} AllAcknowledgedIff(decode: Decoder, messages: seq<Message>, budget: nat)
    requires budget > |messages|
    ensures var ids := Ids(decode, messages);
            ids[..Min(budget, Min(ACK_CHUNK, |ids|))] == ids <==> |ids| <= 100
    ensures |messages| <= 1 ==> |Ids(decode, messages)| <= 1
  {
    SameLength(decode, messages);
  }

  // ----- a whole subscription -----

  /** A response with what the environment decides: whether the storage takes its records, and how
      long the connection for its acknowledgments lasts, None if it cannot be made. */
  datatype Response = Response(messages: seq<Message>, heartbeat: bool, accepts: bool, budget: Option<nat>)

  predicate Kept(decode: Decoder, r: Response) {
    !r.heartbeat && r.accepts && Records(decode, r.messages) != []
  }

  /** The records that responses add to the storage, and the ids of the messages they came from. */
  function KeptRecords(decode: Decoder, responses: seq<Response>): seq<Telemetry> {
    if responses == [] then []
    else
      var r := responses[|responses| - 1];
      KeptRecords(decode, responses[..|responses| - 1]) + if Kept(decode, r) then Records(decode, r.messages) else []
  }

  function KeptIds(decode: Decoder, responses: seq<Response>): seq<string> {
    if responses == [] then []
    else
      var r := responses[|responses| - 1];
      KeptIds(decode, responses[..|responses| - 1]) + if Kept(decode, r) then Ids(decode, r.messages) else []
  }

  /** The ids that are acknowledged. */
  function AckedIds(decode: Decoder, responses: seq<Response>): seq<string> {
    if responses == [] then []
    else
      var r := responses[|responses| - 1];
      AckedIds(decode, responses[..|responses| - 1])
      + if Kept(decode, r) && r.budget.Some? then
          var ids := Ids(decode, r.messages);
          ids[..Min(r.budget.value, Min(ACK_CHUNK, |ids|))]
        else []
  }

  /** What one response contributes: nothing if it is a heartbeat or its records are rejected. */
  function Contributed(decode: Decoder, responses: seq<Response>): seq<seq<Telemetry>> {
    seq(|responses|, i requires 0 <= i < |responses| =>
      if !responses[i].heartbeat && responses[i].accepts then Records(decode, responses[i].messages) else [])
  }

  lemma {:induction false} KeptAre(decode: Decoder, responses: seq<Response>)
    ensures KeptRecords(decode, responses) == Joined(Contributed(decode, responses))
  {
    hide Records, Joined;
    var n := |responses|;
    if n == 0 {
      NothingJoined();
    } else {
      KeptAre(decode, responses[..n - 1]);
      var parts := Contributed(decode, responses);
      JoinedSnoc(Contributed(decode, responses[..n - 1]), parts[n - 1]);
      assert parts == Contributed(decode, responses[..n - 1]) + [parts[n - 1]];
    }
  }

  lemma NothingJoined()
    ensures Joined<Telemetry>([]) == []
  {
  }

  /** The receive loop until the stream fails after the last response. */
  method ProcessSubscription(decode: Decoder, responses: seq<Response>, storage: MemoryStorage)
      returns (acked: seq<string>)
    requires storage.Valid()
    modifies storage
    ensures storage.Valid()
    ensures storage.log == old(storage.log) + KeptRecords(decode, responses)
    ensures storage.log == old(storage.log) + Joined(Contributed(decode, responses))
    ensures acked == AckedIds(decode, responses)
  {
    KeptAre(decode, responses);
    hide KeptRecords, AckedIds, Records, Ids, Joined, Contributed;
    acked := [];
    NothingKept(decode);
    for i := 0 to |responses|
      invariant storage.Valid()
      invariant storage.log == old(storage.log) + KeptRecords(decode, responses[..i])
      invariant acked == AckedIds(decode, responses[..i])
    {
      KeptNext(decode, responses, i);
      ghost var kept := KeptRecords(decode, responses[..i]);
      var r := responses[i];
      var connection := if r.budget.Some? then Some(AckStream(true, r.budget.value, [])) else None;
      var stream := HandleResponse(decode, r.messages, r.heartbeat, storage, r.accepts, connection);
      if stream.Some? { acked := acked + stream.value.sent; }
      Assoc(old(storage.log), kept, Records(decode, r.messages));
    }
    assert responses[..|responses|] == responses;
  }

  lemma NothingKept(decode: Decoder)
    ensures KeptRecords(decode, []) == [] && AckedIds(decode, []) == []
  {
  }

  lemma KeptNext(decode: Decoder, responses: seq<Response>, i: nat)
    requires i < |responses|
    ensures responses[..0] == []
    ensures var r := responses[i];
            var kept, acked := KeptRecords(decode, responses[..i]), AckedIds(decode, responses[..i]);
            var ids := Ids(decode, r.messages);
            && KeptRecords(decode, responses[..i + 1])
               == (if Kept(decode, r) then kept + Records(decode, r.messages) else kept)
            && AckedIds(decode, responses[..i + 1])
               == (if Kept(decode, r) && r.budget.Some?
                   then acked + ids[..Min(r.budget.value, Min(ACK_CHUNK, |ids|))] else acked)
  {
    hide Records, Ids;
    assert responses[..i + 1][..i] == responses[..i];
  }

  /** With at most 100 messages a response and connections that last, exactly the ids of the stored
      records are acknowledged, in order; the subscriber service sends one message a response. */
  lemma {:induction false} StoredAreAcked(decode: Decoder, responses: seq<Response>)
    requires forall i :: 0 <= i < |responses| ==>
               |responses[i].messages| <= 100
               && responses[i].budget.Some? && responses[i].budget.value > |responses[i].messages|
    ensures AckedIds(decode, responses) == KeptIds(decode, responses)
    ensures |KeptIds(decode, responses)| == |KeptRecords(decode, responses)|
  {
    if responses == [] {
    } else {
      var n := |responses| - 1;
      StoredAreAcked(decode, responses[..n]);
      SameLength(decode, responses[n].messages);
    }
  }

  /** Whatever fails, only ids of stored records are acknowledged. */
  lemma {:induction false} AckedAreStored(decode: Decoder, responses: seq<Response>)
    ensures multiset(AckedIds(decode, responses)) <= multiset(KeptIds(decode, responses))
  {
    if responses == [] {
    } else {
      var n := |responses| - 1;
      AckedAreStored(decode, responses[..n]);
      var ids := Ids(decode, responses[n].messages);
      var k := if responses[n].budget.Some? then Min(responses[n].budget.value, Min(ACK_CHUNK, |ids|)) else 0;
      assert ids == ids[..k] + ids[k..];
    }
  }
}
