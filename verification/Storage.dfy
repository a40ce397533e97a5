/**
 The record store of a node (nodex-kademlia/src/storage.rs): a map with byte accounting,
 bounded by evicting the oldest records. Instants are numbers; `now` is a parameter.
 */
module Storages {
  import opened Bytes
  import opened NodeIds

  const MAX_STORAGE_BYTES: nat := 64 * 1024 * 1024
  const MAX_STORAGE_RECORDS: nat := 50_000
  const DEFAULT_TTL: nat := 24 * 3600
  const REPUBLISH_INTERVAL: nat := 3600

  datatype Record = Record(value: seq<byte>, createdAt: nat, ttl: nat, republishAt: nat)

  type Data = map<Id, Record>

  function NewRecord(value: seq<byte>, ttl: nat, now: nat): Record {
    Record(value, now, ttl, now + REPUBLISH_INTERVAL)
  }

  /** `elapsed() > ttl`; an instant in the future has elapsed nothing. */
  predicate Expired(r: Record, now: nat) {
    SatSub(now, r.createdAt) > r.ttl
  }

  function SatSub(a: nat, b: nat): nat {
    if a >= b then a - b else 0
  }

  function Lookup(data: Data, key: Id, now: nat): Option<seq<byte>> {
    if key in data && !Expired(data[key], now) then Some(data[key].value) else None
  }

  // ----- byte accounting -----

  ghost function TotalBytes(data: Data): nat {
    if data == map[] then 0
    else var k :| k in data; |data[k].value| + TotalBytes(data - {k})
  }

  /** Taking out any one record takes exactly its length off the total. */
  lemma {:induction false} TotalWithout(data: Data, key: Id)
    requires key in data
    ensures TotalBytes(data) == |data[key].value| + TotalBytes(data - {key})
    decreases |data|
  {
    var k :| k in data && TotalBytes(data) == |data[k].value| + TotalBytes(data - {k});
    if k != key {
      TotalWithout(data - {k}, key);
      TotalWithout(data - {key}, k);
      assert data - {k} - {key} == data - {key} - {k};
    }
  }

  lemma TotalWith(data: Data, key: Id, r: Record)
    requires key !in data
    ensures TotalBytes(data[key := r]) == TotalBytes(data) + |r.value|
  {
    TotalWithout(data[key := r], key);
    assert data[key := r] - {key} == data;
  }

  lemma {:induction false} OldestExists(data: Data)
    requires data != map[]
    ensures exists k :: IsOldest(data, k)
    decreases |data|
  {
    var k :| k in data;
    var rest := data - {k};
    assert forall o :: o in data <==> o == k || o in rest;
    if rest == map[] {
      assert IsOldest(data, k);
    } else {
      OldestExists(rest);
      var m :| IsOldest(rest, m);
      var oldest := if data[k].createdAt <= data[m].createdAt then k else m;
      forall o | o in data ensures data[oldest].createdAt <= data[o].createdAt {
        assert o == k || rest[m].createdAt <= rest[o].createdAt;
      }
      assert IsOldest(data, oldest);
    }
  }

  predicate IsOldest(data: Data, k: Id) {
    k in data && forall o :: o in data ==> data[k].createdAt <= data[o].createdAt
  }

  predicate Fits(data: Data, bytes: nat, value: seq<byte>) {
    bytes + |value| <= MAX_STORAGE_BYTES && |data| < MAX_STORAGE_RECORDS
  }

  // ----- operations as value-level steps -----

  datatype Step =
    | Put(key: Id, record: Record, evicted: set<Id>)
    | Remove(key: Id)
    | Cleanup(now: nat)
    | Clear

  function Apply(data: Data, step: Step): Data {
    match step
    case Put(key, record, evicted) => (data - {key} - evicted)[key := record]
    case Remove(key) => data - {key}
    case Cleanup(now) => map k | k in data && !Expired(data[k], now) :: data[k]
    case Clear => map[]
  }

  function Run(data: Data, steps: seq<Step>): Data
    decreases |steps|
  {
    if steps == [] then data else Run(Apply(data, steps[0]), steps[1..])
  }

  /** Who may take a record away: a new value for its key, eviction, removal, or expiry. */
  predicate Spares(step: Step, key: Id, until: nat) {
    match step
    case Put(k, _, evicted) => k != key && key !in evicted
    case Remove(k) => k != key
    case Cleanup(now) => now <= until
    case Clear => false
  }

  /** What each operation leaves: the very records, and after a cleanup just those within their TTL. */
  lemma StepExactly(data: Data, step: Step, k: Id)
    ensures var r := Apply(data, step);
            match step
            case Put(key, record, evicted) =>
              if k == key then k in r && r[k] == record
              else (k in r <==> k in data && k !in evicted) && (k in r ==> r[k] == data[k])
            case Remove(key) => (k in r <==> k in data && k != key) && (k in r ==> r[k] == data[k])
            case Cleanup(now) =>
              (k in r <==> k in data && now <= data[k].createdAt + data[k].ttl) && (k in r ==> r[k] == data[k])
            case Clear => k !in r
  {
  }

  /** A record is stamped when it is written, keeps its TTL, and is due for republishing after an hour. */
  lemma RecordExactly(value: seq<byte>, ttl: nat, now: nat)
    ensures NewRecord(value, ttl, now) == Record(value, now, ttl, now + 3600)
  {
  }

  /** What a read returns: the value, until its TTL has passed. */
  lemma ReadExactly(data: Data, key: Id, now: nat)
    ensures Lookup(data, key, now)
         == if key in data && now <= data[key].createdAt + data[key].ttl then Some(data[key].value) else None
  {
  }

  lemma SparedStays(data: Data, key: Id, step: Step)
    requires key in data && Spares(step, key, data[key].createdAt + data[key].ttl)
    ensures key in Apply(data, step) && Apply(data, step)[key] == data[key]
  {
  }

  /**
   An accepted value is readable until its TTL, whatever else the store is asked to do, unless
   it is evicted, removed or replaced; and after its TTL it is not readable.
   */
  lemma {:induction false} ReadableUntilTtl(data: Data, key: Id, steps: seq<Step>, now: nat)
    requires key in data && data[key].createdAt <= now
    requires forall s :: s in steps ==> Spares(s, key, data[key].createdAt + data[key].ttl)
    ensures Lookup(Run(data, steps), key, now)
            == if now <= data[key].createdAt + data[key].ttl then Some(data[key].value) else None
    decreases |steps|
  {
    if steps != [] {
      hide Apply, Spares, Expired;
      var d := Apply(data, steps[0]);
      assert steps[0] in steps;
      SparedStays(data, key, steps[0]);
      assert forall s :: s in steps[1..] ==> s in steps;
      ReadableUntilTtl(d, key, steps[1..], now);
    }
  }

  /**
   What eviction may take: only records at least as old as every survivor, and not one more
   than the limits demand - without the last of them the new value would not have fitted.
   */
  ghost predicate OnlyNeeded(before: Data, evicted: set<Id>, value: seq<byte>) {
    && evicted <= before.Keys
    && (forall e, s :: e in evicted && s in before && s !in evicted ==> before[e].createdAt <= before[s].createdAt)
    && (evicted != {} ==> exists last :: LastNeeded(before, evicted, value, last))
  }

  ghost predicate LastNeeded(before: Data, evicted: set<Id>, value: seq<byte>, last: Id) {
    && last in evicted
    && (forall e :: e in evicted && e in before && last in before ==> before[e].createdAt <= before[last].createdAt)
    && var data := before - (evicted - {last});
       !Fits(data, TotalBytes(data), value) && IsOldest(data, last)
  }

  /** It takes only what is needed, and enough. */
  ghost predicate EvictionOk(before: Data, evicted: set<Id>, value: seq<byte>) {
    OnlyNeeded(before, evicted, value) && Fits(before - evicted, TotalBytes(before - evicted), value)
  }

  // ----- what eviction cannot reach -----

  /** The records at least as recent as that of the key. */
  ghost function AsRecent(data: Data, key: Id): Data
    requires key in data
  {
    map k | k in data && data[k].createdAt >= data[key].createdAt :: data[k]
  }

  /**
   A record is safe from a new value for which there is room beside all records as recent; and
   if no other record is of the same instant, it is evicted in every other case.
   */
  lemma EvictedExactly(before: Data, evicted: set<Id>, value: seq<byte>, key: Id)
    requires EvictionOk(before, evicted, value) && key in before
    ensures var recent := AsRecent(before, key);
            var fits := TotalBytes(recent) + |value| <= 64 * 1024 * 1024 && |recent| < 50_000;
            && (key in evicted ==> !fits)
            && ((forall k :: k in before && k != key ==> before[k].createdAt != before[key].createdAt) ==>
                  (key in evicted <==> !fits))
  {
    hide TotalBytes;
    var recent := AsRecent(before, key);
    if key in evicted {
      var last :| LastNeeded(before, evicted, value, last);
      SubMapSmaller(before - (evicted - {last}), recent);
    } else if forall k :: k in before && k != key ==> before[k].createdAt != before[key].createdAt {
      SubMapSmaller(recent, before - evicted);
    }
  }

  /** Every eviction along the run takes what is needed, as `put` does. */
  ghost predicate RealRun(data: Data, steps: seq<Step>)
    decreases |steps|
  {
    steps != [] ==>
      && (steps[0].Put? ==> EvictionOk(data - {steps[0].key}, steps[0].evicted, steps[0].record.value))
      && RealRun(Apply(data, steps[0]), steps[1..])
  }

  /** How many records, and how many bytes, a run puts. */
  function PutCount(steps: seq<Step>): nat {
    if steps == [] then 0 else (if steps[0].Put? then 1 else 0) + PutCount(steps[1..])
  }

  function PutBytes(steps: seq<Step>): nat {
    if steps == [] then 0 else (if steps[0].Put? then |steps[0].record.value| else 0) + PutBytes(steps[1..])
  }

  /** Nobody but eviction takes the record away. */
  predicate Leaves(step: Step, key: Id, until: nat) {
    match step
    case Put(k, _, _) => k != key
    case _ => Spares(step, key, until)
  }

  /** There is room for all puts of the run beside the records as recent. */
  ghost predicate RoomFor(data: Data, key: Id, steps: seq<Step>)
    requires key in data
  {
    var recent := AsRecent(data, key);
    && |recent| + PutCount(steps) <= 50_000
    && TotalBytes(recent) + PutBytes(steps) <= 64 * 1024 * 1024
  }

  lemma StepLeavesRoom(data: Data, key: Id, steps: seq<Step>)
    requires key in data && steps != [] && RealRun(data, steps) && RoomFor(data, key, steps)
    requires Leaves(steps[0], key, data[key].createdAt + data[key].ttl)
    ensures Spares(steps[0], key, data[key].createdAt + data[key].ttl)
    ensures var d := Apply(data, steps[0]);
            key in d && d[key] == data[key] && RoomFor(d, key, steps[1..])
  {
    hide TotalBytes, EvictionOk;
    var d, recent := Apply(data, steps[0]), AsRecent(data, key);
    match steps[0]
    case Put(k, record, evicted) =>
      var before := data - {k};
      SubMapSmaller(AsRecent(before, key), recent);
      EvictedExactly(before, evicted, record.value, key);
      assert key !in evicted;
      var now: Data := AsRecent(d, key);
      if k in now {
        SubMapSmaller(now - {k}, recent);
        WithOne(now, k);
        assert now[k] == record;
      } else {
        SubMapSmaller(now, recent);
      }
    case Remove(_) => SubMapSmaller(AsRecent(d, key), recent);
    case Cleanup(_) => SubMapSmaller(AsRecent(d, key), recent);
    case Clear =>
  }

  lemma WithOne(data: Data, k: Id)
    requires k in data
    ensures |data| == |data - {k}| + 1
    ensures TotalBytes(data) == TotalBytes(data - {k}) + |data[k].value|
  {
    hide TotalBytes;
    TotalWithout(data, k);
    OneLess(data, k);
  }

  lemma OneLess(data: Data, k: Id)
    requires k in data
    ensures |data| == |data - {k}| + 1
  {
    assert data == (data - {k})[k := data[k]];
  }

  /**
   As long as the records at least as recent and all that is put meanwhile stay within the limits,
   no eviction reaches a record: it is readable until its TTL unless removed or replaced.
   */
  lemma {:induction false} ReadableWhileRoom(data: Data, key: Id, steps: seq<Step>, now: nat)
    requires key in data && data[key].createdAt <= now && RealRun(data, steps) && RoomFor(data, key, steps)
    requires forall s :: s in steps ==> Leaves(s, key, data[key].createdAt + data[key].ttl)
    ensures Lookup(Run(data, steps), key, now)
            == if now <= data[key].createdAt + data[key].ttl then Some(data[key].value) else None
    decreases |steps|
  {
    if steps != [] {
      hide Apply, Leaves, Expired, RoomFor, EvictionOk;
      assert steps[0] in steps && forall s :: s in steps[1..] ==> s in steps;
      StepLeavesRoom(data, key, steps);
      ReadableWhileRoom(Apply(data, steps[0]), key, steps[1..], now);
    }
  }

  class Storage {
    var data: Data
    var storedBytes: nat

    /** The counter is the sum of the value lengths, and both limits hold. */
    ghost predicate Valid()
      reads this
    {
      storedBytes == TotalBytes(data)
      && storedBytes <= MAX_STORAGE_BYTES
      && |data| <= MAX_STORAGE_RECORDS
    }

    constructor ()
      ensures Valid() && data == map[]
    {
      data, storedBytes := map[], 0;
    }

    method Put(key: Id, value: seq<byte>, ttl: nat, now: nat) returns (ghost evicted: set<Id>)
      requires Valid()
      modifies this
      ensures Valid()
      ensures |value| > MAX_STORAGE_BYTES ==> data == old(data) && evicted == {}
      ensures |value| <= MAX_STORAGE_BYTES ==>
                data == Apply(old(data), Step.Put(key, NewRecord(value, ttl, now), evicted))
                && EvictionOk(old(data) - {key}, evicted, value)
    {
      hide TotalBytes, EvictionOk, Apply;
      evicted := {};
      if |value| > MAX_STORAGE_BYTES {
        return;
      }
      ForgetPrevious(key);
      evicted := MakeRoom(value);
      PutStep(old(data), key, NewRecord(value, ttl, now), evicted, data);
      storedBytes := storedBytes + |value|;
      data := data[key := NewRecord(value, ttl, now)];
    }

    method ForgetPrevious(key: Id)
      requires Valid()
      modifies this
      ensures Valid() && data == old(data) - {key}
    {
      if key in data {
        var previous := data[key];
        TotalWithout(data, key);
        data := data - {key};
        storedBytes := SatSub(storedBytes, |previous.value|);
      } else {
        assert data - {key} == data;
      }
    }

    /**
     The eviction loop. The source leaves it if there is no oldest record; the assertion that
     there always is one shows that this never happens, nor does the counter saturate.
     */
    method MakeRoom(value: seq<byte>) returns (ghost evicted: set<Id>)
      requires Valid() && |value| <= MAX_STORAGE_BYTES
      modifies this
      ensures Valid() && Fits(data, storedBytes, value)
      ensures data == old(data) - evicted && EvictionOk(old(data), evicted, value)
    {
      hide OnlyNeeded, TotalBytes, IsOldest, Fits;
      evicted := {};
      ghost var before := data;
      NothingEvicted(data, value);
      while !Fits(data, storedBytes, value)
        invariant Valid()
        invariant data == before - evicted
        invariant OnlyNeeded(before, evicted, value)
        decreases |data|
      {
        NonEmpty(data, value);
        OldestExists(data);
        var oldest :| IsOldest(data, oldest);
        EvictOne(before, evicted, data, oldest, value);
        storedBytes := SatSub(storedBytes, |data[oldest].value|);
        data := data - {oldest};
        evicted := evicted + {oldest};
      }
    }

    function Get(key: Id, now: nat): Option<seq<byte>>
      reads this
    {
      Lookup(data, key, now)
    }

    method Remove(key: Id) returns (removed: Option<Record>)
      requires Valid()
      modifies this
      ensures Valid() && data == Apply(old(data), Step.Remove(key))
      ensures removed == if key in old(data) then Some(old(data)[key]) else None
    {
      if key in data {
        var record := data[key];
        TotalWithout(data, key);
        data := data - {key};
        storedBytes := SatSub(storedBytes, |record.value|);
        removed := Some(record);
      } else {
        assert data - {key} == data;
        removed := None;
      }
    }

    method Clear()
      modifies this
      ensures Valid() && data == map[]
    {
      data := map[];
      storedBytes := 0;
    }

    method CleanupStale(now: nat) returns (removed: nat)
      requires Valid()
      modifies this
      ensures Valid() && data == Apply(old(data), Cleanup(now))
      ensures removed == |old(data)| - |data|
    {
      var before := |data|;
      ghost var all := data;
      data := map k | k in data && !Expired(data[k], now) :: data[k];
      SubMapSmaller(data, all);
      removed := before - |data|;
      storedBytes := SumLengths(data);
    }
  }

  lemma NothingEvicted(data: Data, value: seq<byte>)
    ensures data - {} == data && OnlyNeeded(data, {}, value)
  {
  }

  lemma NonEmpty(data: Data, value: seq<byte>)
    requires |value| <= MAX_STORAGE_BYTES && !Fits(data, TotalBytes(data), value)
    ensures data != map[]
  {
  }

  lemma EvictOne(before: Data, evicted: set<Id>, data: Data, oldest: Id, value: seq<byte>)
    requires OnlyNeeded(before, evicted, value) && data == before - evicted
    requires IsOldest(data, oldest) && !Fits(data, TotalBytes(data), value)
    ensures oldest in data && data - {oldest} == before - (evicted + {oldest})
    ensures |data - {oldest}| == |data| - 1
    ensures TotalBytes(data) == TotalBytes(data - {oldest}) + |data[oldest].value|
    ensures OnlyNeeded(before, evicted + {oldest}, value)
  {
    hide TotalBytes, OnlyNeeded;
    TotalWithout(data, oldest);
    WithoutOne(before, evicted, data, oldest);
    StillOldestFirst(before, evicted, data, oldest, value);
  }

  lemma WithoutOne(before: Data, evicted: set<Id>, data: Data, k: Id)
    requires data == before - evicted && k in data
    ensures data - {k} == before - (evicted + {k})
    ensures |data - {k}| == |data| - 1
  {
  }

  lemma StillOldestFirst(before: Data, evicted: set<Id>, data: Data, oldest: Id, value: seq<byte>)
    requires OnlyNeeded(before, evicted, value) && data == before - evicted
    requires IsOldest(data, oldest) && !Fits(data, TotalBytes(data), value)
    ensures OnlyNeeded(before, evicted + {oldest}, value)
  {
    hide TotalBytes;
    assert evicted + {oldest} - {oldest} == evicted by {
      assert oldest !in evicted;
    }
    assert LastNeeded(before, evicted + {oldest}, value, oldest);
    forall s | s in before && s !in evicted ensures before[oldest].createdAt <= before[s].createdAt {
      assert s in data && data[s] == before[s];
    }
  }

  lemma PutStep(was: Data, key: Id, r: Record, evicted: set<Id>, data: Data)
    requires data == was - {key} - evicted
    ensures data[key := r] == Apply(was, Step.Put(key, r, evicted))
    ensures |data[key := r]| == |data| + 1
    ensures TotalBytes(data[key := r]) == TotalBytes(data) + |r.value|
  {
    hide TotalBytes;
    assert key !in data;
    TotalWith(data, key, r);
  }

  lemma {:induction false} SubMapSmaller(m: Data, n: Data)
    requires m.Keys <= n.Keys && forall k :: k in m ==> m[k] == n[k]
    ensures |m| <= |n| && TotalBytes(m) <= TotalBytes(n)
    decreases |m|
  {
    if m != map[] {
      var k :| k in m;
      SubMapSmaller(m - {k}, n - {k});
      TotalWithout(m, k);
      TotalWithout(n, k);
    }
  }

  /** `values().map(len).sum()`. */
  method SumLengths(data: Data) returns (sum: nat)
    ensures sum == TotalBytes(data)
  {
    sum := 0;
    var rest := data;
    while rest != map[]
      invariant sum + TotalBytes(rest) == TotalBytes(data)
      decreases |rest|
    {
      var k :| k in rest;
      TotalWithout(rest, k);
      sum := sum + |rest[k].value|;
      rest := rest - {k};
    }
  }
}
