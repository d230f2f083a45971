/** The collector's in-memory storage: a per-GPU index that agrees with the flat log of every
    record ever stored. */
module MemoryStorages {
  import opened Models

  function Identity(t: Telemetry): Gpu {
    Gpu(t.uuid, t.gpuIndex, t.device, t.hostname)
  }

  /** The records of one GPU, in the order of the log. */
  function Of(log: seq<Telemetry>, uuid: string): seq<Telemetry> {
    if log == [] then []
    else
      var last := log[|log| - 1];
      Of(log[..|log| - 1], uuid) + if last.uuid == uuid then [last] else []
  }

  function Uuids(log: seq<Telemetry>): set<string> {
    set t <- log :: t.uuid
  }

  predicate InRange(t: Telemetry, start: int, end: int) {
    start <= t.timestamp <= end
  }

  function Between(records: seq<Telemetry>, start: int, end: int): seq<Telemetry> {
    if records == [] then []
    else
      var last := records[|records| - 1];
      Between(records[..|records| - 1], start, end) + if InRange(last, start, end) then [last] else []
  }

  /** The records of the log that a query asks for. */
  function Matching(log: seq<Telemetry>, uuid: string, start: int, end: int): multiset<Telemetry> {
    if log == [] then multiset{}
    else
      Matching(log[1..], uuid, start, end)
      + if log[0].uuid == uuid && InRange(log[0], start, end) then multiset{log[0]} else multiset{}
  }

  /** Which records those are, each as often as the log holds it. */
  lemma {:induction false} MatchingIs(log: seq<Telemetry>, uuid: string, start: int, end: int)
    ensures forall t :: Matching(log, uuid, start, end)[t]
              == if t.uuid == uuid && start <= t.timestamp <= end then multiset(log)[t] else 0
  {
    if log == [] {
    } else {
      MatchingIs(log[1..], uuid, start, end);
      assert log == [log[0]] + log[1..];
    }
  }

  predicate ByTime(records: seq<Telemetry>) {
    forall i, j :: 0 <= i < j < |records| ==> records[i].timestamp <= records[j].timestamp
  }

  lemma {:induction false} OfSnoc(log: seq<Telemetry>, t: Telemetry, uuid: string)
    ensures Of(log + [t], uuid) == Of(log, uuid) + if t.uuid == uuid then [t] else []
  {
    assert (log + [t])[..|log|] == log;
  }

  lemma {:induction false} BetweenSnoc(records: seq<Telemetry>, t: Telemetry, start: int, end: int)
    ensures Between(records + [t], start, end)
         == Between(records, start, end) + if InRange(t, start, end) then [t] else []
  {
    assert (records + [t])[..|records|] == records;
  }

  lemma {:induction false} MatchingSnoc(log: seq<Telemetry>, t: Telemetry, uuid: string, start: int, end: int)
    ensures Matching(log + [t], uuid, start, end)
         == Matching(log, uuid, start, end)
            + if t.uuid == uuid && InRange(t, start, end) then multiset{t} else multiset{}
  {
    if log == [] {
      assert Matching([t][1..], uuid, start, end) == multiset{};
    } else {
      assert (log + [t])[1..] == log[1..] + [t];
      MatchingSnoc(log[1..], t, uuid, start, end);
    }
  }

  /** Filtering one GPU's list by time selects what a scan of the whole log would. */
  lemma {:induction false} IndexAnswersLog(log: seq<Telemetry>, uuid: string, start: int, end: int)
    ensures multiset(Between(Of(log, uuid), start, end)) == Matching(log, uuid, start, end)
  {
    Answered(log, uuid, start, end);
  }

  ghost predicate Answers(log: seq<Telemetry>, uuid: string, start: int, end: int) {
    multiset(Between(Of(log, uuid), start, end)) == Matching(log, uuid, start, end)
  }

  lemma {:induction false} Answered(log: seq<Telemetry>, uuid: string, start: int, end: int)
    ensures Answers(log, uuid, start, end)
  {
    hide Answers;
    if log == [] {
      NothingAnswered(uuid, start, end);
    } else {
      var before, last := log[..|log| - 1], log[|log| - 1];
      Answered(before, uuid, start, end);
      AnswersNext(before, last, uuid, start, end);
      assert log == before + [last];
    }
  }

  lemma NothingAnswered(uuid: string, start: int, end: int)
    ensures Answers([], uuid, start, end)
  {
  }

  lemma {:induction false} AnswersNext(log: seq<Telemetry>, t: Telemetry, uuid: string, start: int, end: int)
    requires Answers(log, uuid, start, end)
    ensures Answers(log + [t], uuid, start, end)
  {
    hide Between, Of, Matching, InRange;
    MatchingSnoc(log, t, uuid, start, end);
    OfSnoc(log, t, uuid);
    BetweenSnoc(Of(log, uuid), t, start, end);
    assert Of(log, uuid) + [] == Of(log, uuid);
  }

  /** A GPU has records exactly if its list is not empty, and the list holds only its records. */
  lemma {:induction false} OfIsNonEmpty(log: seq<Telemetry>, uuid: string)
    ensures Of(log, uuid) != [] <==> uuid in Uuids(log)
    ensures forall i :: 0 <= i < |Of(log, uuid)| ==> Of(log, uuid)[i].uuid == uuid
  {
    if log == [] {
    } else {
      var before, last := log[..|log| - 1], log[|log| - 1];
      assert log == before + [last];
      OfIsNonEmpty(before, uuid);
      assert Uuids(log) == Uuids(before) + {last.uuid};
    }
  }

  /** Every record of the log is in exactly one of the lists. */
  lemma {:induction false} ListsPartitionLog(log: seq<Telemetry>, t: Telemetry)
    ensures multiset(Of(log, t.uuid))[t] == multiset(log)[t]
  {
    if log == [] {
    } else {
      assert log == log[..|log| - 1] + [log[|log| - 1]];
      ListsPartitionLog(log[..|log| - 1], t);
    }
  }

  /** The two maps hold what the log says: per GPU its records in order, and the identity in its
      last record. */
  ghost predicate Agree(gpus: map<string, Gpu>, telemetry: map<string, seq<Telemetry>>, log: seq<Telemetry>) {
    && gpus.Keys == telemetry.Keys == Uuids(log)
    && forall u <- telemetry.Keys :: Entry(gpus[u], telemetry[u], Of(log, u))
  }

  predicate Entry(gpu: Gpu, records: seq<Telemetry>, wanted: seq<Telemetry>) {
    records == wanted && records != [] && gpu == Identity(records[|records| - 1])
  }

  lemma AgreeNext(gpus: map<string, Gpu>, telemetry: map<string, seq<Telemetry>>, log: seq<Telemetry>, t: Telemetry)
    requires Agree(gpus, telemetry, log)
    ensures var records := if t.uuid in telemetry then telemetry[t.uuid] else [];
            Agree(gpus[t.uuid := Identity(t)], telemetry[t.uuid := records + [t]], log + [t])
  {
    hide Of, Uuids, Identity, Entry;
    var records := if t.uuid in telemetry then telemetry[t.uuid] else [];
    var gpus', telemetry' := gpus[t.uuid := Identity(t)], telemetry[t.uuid := records + [t]];
    UuidsSnoc(log, t);
    RecordsAre(gpus, telemetry, log, t.uuid);
    EntryNext(records, log, t);
    assert gpus'.Keys == gpus.Keys + {t.uuid} && telemetry'.Keys == telemetry.Keys + {t.uuid};
    forall u | u in telemetry'.Keys
      ensures Entry(gpus'[u], telemetry'[u], Of(log + [t], u))
    {
      if u != t.uuid { EntryStays(gpus, telemetry, log, t, u); }
    }
  }

  lemma {:induction false} RecordsAre(gpus: map<string, Gpu>, telemetry: map<string, seq<Telemetry>>,
                                      log: seq<Telemetry>, uuid: string)
    requires Agree(gpus, telemetry, log)
    ensures Of(log, uuid) == if uuid in telemetry then telemetry[uuid] else []
  {
    hide Of, Identity;
    OfIsNonEmpty(log, uuid);
    if uuid in telemetry { assert Entry(gpus[uuid], telemetry[uuid], Of(log, uuid)); }
  }

  lemma {:induction false} EntryStays(gpus: map<string, Gpu>, telemetry: map<string, seq<Telemetry>>,
                                      log: seq<Telemetry>, t: Telemetry, u: string)
    requires Agree(gpus, telemetry, log) && u in telemetry && u != t.uuid
    ensures u in gpus && Entry(gpus[u], telemetry[u], Of(log + [t], u))
  {
    hide Of, Identity, Entry, Uuids;
    OfSnoc(log, t, u);
    assert Of(log, u) + [] == Of(log, u);
    assert Entry(gpus[u], telemetry[u], Of(log, u));
  }

  lemma {:induction false} EntryNext(records: seq<Telemetry>, log: seq<Telemetry>, t: Telemetry)
    requires records == Of(log, t.uuid)
    ensures Entry(Identity(t), records + [t], Of(log + [t], t.uuid))
  {
    OfSnoc(log, t, t.uuid);
  }

  lemma UuidsSnoc(log: seq<Telemetry>, t: Telemetry)
    ensures Uuids(log + [t]) == Uuids(log) + {t.uuid}
  {
    assert forall x :: x in log + [t] <==> x in log || x == t;
  }

  /** Record k is the last of its GPU. */
  ghost predicate IsLast(log: seq<Telemetry>, k: nat) {
    k < |log| && forall l :: k < l < |log| ==> log[l].uuid != log[k].uuid
  }

  lemma {:induction false} LastOf(log: seq<Telemetry>, uuid: string) returns (k: nat)
    requires Of(log, uuid) != []
    ensures IsLast(log, k) && log[k].uuid == uuid && log[k] == Of(log, uuid)[|Of(log, uuid)| - 1]
  {
    k := |log| - 1;
    if log[k].uuid != uuid { k := LastOf(log[..k], uuid); }
  }

  ghost predicate InSome(gpus: seq<Gpu>, uuid: string) {
    exists i :: 0 <= i < |gpus| && gpus[i].uuid == uuid
  }

  lemma SomeMore(gpus: seq<Gpu>, gpu: Gpu)
    ensures forall u :: InSome(gpus, u) || u == gpu.uuid ==> InSome(gpus + [gpu], u)
  {
    var more := gpus + [gpu];
    assert more[|gpus|] == gpu;
    assert forall i :: 0 <= i < |gpus| ==> more[i] == gpus[i];
  }

  lemma LogIsKnown(log: seq<Telemetry>)
    ensures forall t <- log :: t.uuid in Uuids(log)
  {
  }

  class MemoryStorage {
    var gpus: map<string, Gpu>
    var telemetry: map<string, seq<Telemetry>>
    ghost var log: seq<Telemetry>

    ghost predicate Valid()
      reads this
    {
      Agree(gpus, telemetry, log)
    }

    constructor ()
      ensures Valid() && log == []
    {
      gpus, telemetry, log := map[], map[], [];
    }

    method Store(batch: seq<Telemetry>)
      requires Valid()
      modifies this
      ensures Valid() && log == old(log) + batch
    {
      for i := 0 to |batch|
        invariant Valid() && log == old(log) + batch[..i]
      {
        Append(batch[i]);
        assert batch[..i + 1] == batch[..i] + [batch[i]];
      }
      assert batch[..|batch|] == batch;
    }

    /** One round of the loop: the GPU's entry is overwritten and its list grows. */
    method Append(t: Telemetry)
      requires Valid()
      modifies this
      ensures Valid() && log == old(log) + [t]
    {
      hide Agree, Of, Uuids;
      AgreeNext(gpus, telemetry, log, t);
      gpus := gpus[t.uuid := Gpu(t.uuid, t.gpuIndex, t.device, t.hostname)];
      telemetry := telemetry[t.uuid := (if t.uuid in telemetry then telemetry[t.uuid] else []) + [t]];
      log := log + [t];
    }

    /** The records of one GPU with start <= timestamp <= end, by time.  Records with equal times
        may come in any order, as the sort is not stable. */
    method GetGPUTelemetry(gpuId: string, start: int, end: int) returns (result: seq<Telemetry>)
      requires Valid()
      ensures forall i, j :: 0 <= i < j < |result| ==> result[i].timestamp <= result[j].timestamp
      ensures forall t :: multiset(result)[t]
                == if t.uuid == gpuId && start <= t.timestamp <= end then multiset(log)[t] else 0
    {
      MatchingIs(log, gpuId, start, end);
      OfIsNonEmpty(log, gpuId);
      IndexAnswersLog(log, gpuId, start, end);
      assert gpuId in telemetry.Keys ==> Entry(gpus[gpuId], telemetry[gpuId], Of(log, gpuId));
      assert gpuId !in telemetry.Keys ==> Between(Of(log, gpuId), start, end) == [];
      hide Agree, Of, Uuids, Matching, Between, ByTime;
      result := [];
      if gpuId in telemetry { result := SelectInRange(telemetry[gpuId], start, end); }
      result := SortedByTime(result);
    }

    /** One entry per GPU that has records, carrying the identity in its last record. */
    method ListGPUs() returns (result: seq<Gpu>)
      requires Valid()
      ensures |result| == |Uuids(log)|
      ensures forall t <- log :: InSome(result, t.uuid)
      ensures forall i, j :: 0 <= i < j < |result| ==> result[i].uuid != result[j].uuid
      ensures forall i :: 0 <= i < |result| ==>
                exists k: nat :: IsLast(log, k)
                  && result[i] == Gpu(log[k].uuid, log[k].gpuIndex, log[k].device, log[k].hostname)
    {
      result := [];
      var rest := gpus.Keys;
      hide Agree, Entry, Of, Uuids, Identity;
      while rest != {}
        invariant rest <= gpus.Keys && |result| + |rest| == |gpus.Keys|
        invariant forall i, j :: 0 <= i < j < |result| ==> result[i].uuid != result[j].uuid
        invariant forall i :: 0 <= i < |result| ==> result[i].uuid !in rest && Listed(result[i])
        invariant forall u <- gpus.Keys :: u in rest || InSome(result, u)
        decreases |rest|
      {
        var u :| u in rest;
        EntryIsListed(u);
        SomeMore(result, gpus[u]);
        result := result + [gpus[u]];
        rest := rest - {u};
      }
      assert gpus.Keys == Uuids(log) by { SameKeys(); }
      LogIsKnown(log);
      forall i | 0 <= i < |result|
        ensures exists k: nat :: IsLast(log, k)
                  && result[i] == Gpu(log[k].uuid, log[k].gpuIndex, log[k].device, log[k].hostname)
      {
        ListedIsLast(result[i]);
      }
    }

    lemma ListedIsLast(gpu: Gpu)
      requires Listed(gpu)
      ensures exists k: nat :: IsLast(log, k)
                && gpu == Gpu(log[k].uuid, log[k].gpuIndex, log[k].device, log[k].hostname)
    {
      var k := LastOf(log, gpu.uuid);
    }

    lemma SameKeys()
      requires Valid()
      ensures gpus.Keys == Uuids(log)
    {
    }

    lemma EntryIsListed(u: string)
      requires Valid() && u in gpus
      ensures gpus[u].uuid == u && Listed(gpus[u])
    {
      assert Entry(gpus[u], telemetry[u], Of(log, u));
      OfIsNonEmpty(log, u);
      hide Agree, Of, Uuids;
      var records := telemetry[u];
      assert records[|records| - 1].uuid == u;
    }

    /** The entry of a GPU as its last record has it. */
    ghost predicate Listed(gpu: Gpu)
      reads this
    {
      var records := Of(log, gpu.uuid);
      records != [] && gpu == Identity(records[|records| - 1])
    }

    method Close()
      modifies this
      ensures Valid() && log == []
    {
      gpus, telemetry, log := map[], map[], [];
    }
  }

  /** The loop that collects the records in range. */
  method SelectInRange(records: seq<Telemetry>, start: int, end: int) returns (result: seq<Telemetry>)
    ensures result == Between(records, start, end)
  {
    result := [];
    for i := 0 to |records|
      invariant result == Between(records[..i], start, end)
    {
      BetweenSnoc(records[..i], records[i], start, end);
      assert records[..i + 1] == records[..i] + [records[i]];
      if !(records[i].timestamp < start) && !(records[i].timestamp > end) { result := result + [records[i]]; }
    }
    assert records[..|records|] == records;
  }

  lemma Inserted(sorted: seq<Telemetry>, k: nat, t: Telemetry)
    requires k <= |sorted| && ByTime(sorted)
    requires k > 0 ==> sorted[k - 1].timestamp <= t.timestamp
    requires forall j :: k <= j < |sorted| ==> t.timestamp < sorted[j].timestamp
    ensures ByTime(sorted[..k] + [t] + sorted[k..])
  {
    forall i | 0 <= i < k
      ensures sorted[i].timestamp <= t.timestamp
    {
      assert i < k - 1 ==> sorted[i].timestamp <= sorted[k - 1].timestamp;
    }
    var more := sorted[..k] + [t] + sorted[k..];
    forall i, j | 0 <= i < j < |more|
      ensures more[i].timestamp <= more[j].timestamp
    {
      var a, b := if i > k then i - 1 else i, if j > k then j - 1 else j;
      assert i == k || more[i] == sorted[a];
      assert j == k || more[j] == sorted[b];
    }
  }

  lemma InsertedContents(sorted: seq<Telemetry>, k: nat, t: Telemetry)
    requires k <= |sorted|
    ensures multiset(sorted[..k] + [t] + sorted[k..]) == multiset(sorted) + multiset{t}
  {
    assert sorted == sorted[..k] + sorted[k..];
  }

  /** A sorted permutation; the library sort promises no more. */
  method SortedByTime(records: seq<Telemetry>) returns (sorted: seq<Telemetry>)
    ensures ByTime(sorted) && multiset(sorted) == multiset(records)
  {
    sorted := [];
    for i := 0 to |records|
      invariant ByTime(sorted) && multiset(sorted) == multiset(records[..i])
    {
      var t, k := records[i], |sorted|;
      while k > 0 && t.timestamp < sorted[k - 1].timestamp
        invariant 0 <= k <= |sorted|
        invariant forall j :: k <= j < |sorted| ==> t.timestamp < sorted[j].timestamp
      {
        k := k - 1;
      }
      Inserted(sorted, k, t);
      InsertedContents(sorted, k, t);
      assert records[..i + 1] == records[..i] + [t];
      sorted := sorted[..k] + [t] + sorted[k..];
    }
    assert records[..|records|] == records;
  }
}
