/**
 `put` and `get` on a network (nodex-kademlia/src/lib.rs): the handlers that write, the
 replication, and the agreement of the two from any pair of nodes.
 */
module Dht {
  import opened Bytes
  import opened NodeIds
  import opened Contacts
  import opened RoutingTables
  import opened Lookup
  import opened Mailbox
  import opened Storages
  import opened Networks
  import opened Upkeep
  import Rpc

  // ----- handlers -----

  /** How a handler's write changes a store: one record, and what had to be evicted for it. */
  ghost predicate Wrote(before: Data, after: Data, key: Id, value: seq<byte>, now: nat, evicted: set<Id>) {
    after == Storages.Apply(before, Storages.Step.Put(key, NewRecord(value, DEFAULT_TTL, now), evicted))
    && EvictionOk(before - {key}, evicted, value)
  }

  lemma WroteRecord(before: Data, after: Data, key: Id, value: seq<byte>, now: nat, evicted: set<Id>)
    requires Wrote(before, after, key, value, now, evicted)
    ensures key in after && after[key] == NewRecord(value, DEFAULT_TTL, now)
  {
    hide EvictionOk;
  }

  /** The STORE handler. */
  method HandleStore<E(==,!new)>(st: Storage, json: Json<E>, key: Id, value: seq<byte>, now: nat)
    returns (ok: bool, ghost evicted: set<Id>)
    requires st.Valid() && json.Lawful()
    modifies st
    ensures st.Valid()
    ensures var (merged, accepted) := Merged(json, old(st.Get(key, now)), value);
            && ok == accepted
            && (ok && |merged| <= MAX_STORAGE_BYTES ==> Wrote(old(st.data), st.data, key, merged, now, evicted))
            && (!ok || |merged| > MAX_STORAGE_BYTES ==> st.data == old(st.data))
  {
    hide EvictionOk, Merged, Storages.Apply;
    var merged, accepted, pruned := MergeStoreValue(json, st.Get(key, now), value);
    evicted := {};
    if accepted {
      evicted := st.Put(key, merged, DEFAULT_TTL, now);
    }
    ok := accepted;
  }

  /** What answering FIND_VALUE does to a store: it writes back a mailbox it had to repair. */
  ghost predicate Answered<E(!new)>(json: Json<E>, before: Data, after: Data, key: Id, now: nat) {
    match Storages.Lookup(before, key, now)
    case None => after == before
    case Some(v) =>
      if Repaired(json, v) == v || |Repaired(json, v)| > MAX_STORAGE_BYTES then after == before
      else exists evicted :: Wrote(before, after, key, Repaired(json, v), now, evicted)
  }

  /** The FIND_VALUE handler, with its repair of oversized mailboxes. */
  method HandleFindValue<E(==,!new)>(st: Storage, json: Json<E>, key: Id, now: nat) returns (value: Option<seq<byte>>)
    requires st.Valid() && json.Lawful()
    modifies st
    ensures st.Valid()
    ensures value == match old(st.Get(key, now)) case Some(v) => Some(Repaired(json, v)) case None => None
    ensures Answered(json, old(st.data), st.data, key, now)
  {
    hide EvictionOk, Merged, Storages.Apply;
    var stored := st.Get(key, now);
    if stored.None? {
      return None;
    }
    var bounded, accepted, pruned := MergeStoreValue(json, None, stored.value);
    if |bounded| < |stored.value| {
      ghost var evicted := st.Put(key, bounded, DEFAULT_TTL, now);
      assert |bounded| <= MAX_STORAGE_BYTES ==> Wrote(old(st.data), st.data, key, bounded, now, evicted);
      return Some(bounded);
    }
    return stored;
  }

  // ----- values that mean the same -----

  /** The same items for arrays, the same bytes for anything else. */
  ghost predicate Same<E(!new)>(json: Json<E>, a: seq<byte>, b: seq<byte>) {
    json.parse(a) == json.parse(b) && (json.parse(a).None? ==> a == b)
  }

  /** Values all nodes store alike: not too large and, if arrays, kept by a merge. */
  ghost predicate Storable<E(!new)>(json: Json<E>, value: seq<byte>) {
    |value| <= MAX_VALUE_SIZE && (json.parse(value).Some? ==> Keepable(json.size, json.parse(value).value))
  }

  /**
   Merging such a value is accepted and keeps its meaning: a plain one whatever was there before,
   an array if nothing else was.
   */
  lemma MergedSame<E(!new)>(json: Json<E>, existing: Option<seq<byte>>, value: seq<byte>)
    requires json.Lawful() && Storable(json, value)
    requires json.parse(value).Some? && existing.Some? ==> Same(json, existing.value, value)
    ensures var (merged, ok) := Merged(json, existing, value);
            ok && Same(json, merged, value) && |merged| <= MAX_VALUE_SIZE
  {
    hide Excess, SumSizes;
    if json.parse(value).None? {
      PlainReplaces(json, existing, value);
    } else {
      var items := json.parse(value).value;
      MergeKeepsExactly(json, value);
      if existing.Some? {
        CombineSeen(json.size, items, items);
        assert Combine(json.size, [], items) == items && items[0..] == items by {
          CombineKept(json.size, items);
        }
        LongestBoundedSuffix(json.size, items, 0);
      }
    }
  }

  lemma CombineKept<E(!new)>(size: E -> nat, items: seq<E>)
    requires Keepable(size, items)
    ensures Combine(size, [], items) == items && items[0..] == items && !AnyOversize(size, items)
  {
    hide SumSizes;
    forall i | 0 <= i < |items| ensures size(items[i]) <= MAX_MAILBOX_VALUE_BYTES {
      BoundedItemsFit(size, items, i);
    }
    CombineFresh(size, items);
  }

  /** So does repairing it, and what is repaired can be sent. */
  lemma RepairedSame<E(!new)>(json: Json<E>, v: seq<byte>, value: seq<byte>)
    requires json.Lawful() && Storable(json, value) && Same(json, v, value)
    ensures Same(json, Repaired(json, v), value) && |Repaired(json, v)| <= MAX_VALUE_SIZE
  {
    hide Excess, SumSizes;
    if json.parse(v).Some? {
      MergeKeepsExactly(json, v);
    }
  }

  /**
   What FIND_VALUE answers: a plain value as it is if it has at most 65536 bytes, and nothing of a
   larger one; a mailbox within the bounds as it is, and of a larger one the newest items, as many
   of its distinct ones as fit.
   */
  lemma RepairedExactly<E(!new)>(json: Json<E>, v: seq<byte>) returns (all: seq<E>, dropped: nat)
    requires json.Lawful()
    ensures json.parse(v).None? ==> Repaired(json, v) == if |v| <= 65536 then v else []
    ensures json.parse(v).Some? ==>
              && Extends(json.size, [], json.parse(v).value, all) && dropped <= |all|
              && (forall n :: 0 <= n < dropped ==> |all[n..]| > 50 || |json.render(all[n..])| > 49152)
              && |all[dropped..]| <= 50 && |json.render(all[dropped..])| <= 49152
              && Repaired(json, v)
                 == if |json.render(all[dropped..])| < |v| then json.render(all[dropped..]) else v
  {
    hide Extends, SumSizes;
    if json.parse(v).None? {
      PlainRepaired(json, v);
      all, dropped := [], 0;
    } else {
      all, dropped := MergeExactly(json, None, v);
      RenderedBack(json, v, all[dropped..]);
    }
  }

  lemma PlainRepaired<E(!new)>(json: Json<E>, v: seq<byte>)
    requires json.parse(v).None?
    ensures Repaired(json, v) == if |v| <= 65536 then v else []
  {
  }

  /**
   A plain value stays readable through FIND_VALUE exactly if it has at most 65536 bytes. A node can
   hold a larger one, by a put of its own; whoever asks for it first is sent nothing in its place,
   and the node keeps nothing.
   */
  lemma LargeValueEmptied<E(!new)>(json: Json<E>, before: Data, after: Data, key: Id, now: nat, v: seq<byte>)
    requires Storages.Lookup(before, key, now) == Some(v) && json.parse(v).None?
    requires Answered(json, before, after, key, now)
    ensures Storages.Lookup(after, key, now) == Some(v) <==> |v| <= 65536
    ensures |v| > 65536 ==> Repaired(json, v) == [] && Storages.Lookup(after, key, now) == Some([])
  {
    hide EvictionOk, Repaired, Answered;
    PlainRepaired(json, v);
    AnsweredExactly(json, before, after, key, now);
  }

  lemma RenderedBack<E(!new)>(json: Json<E>, v: seq<byte>, kept: seq<E>)
    requires json.Lawful() && json.parse(v).Some? && json.parse(Merged(json, None, v).0) == Some(kept)
    ensures Merged(json, None, v).0 == json.render(kept)
  {
    hide Combine, Excess, SumSizes;
  }

  /** After answering, the node holds what it answered, under the key, with a new lease if it was repaired. */
  lemma AnsweredExactly<E(!new)>(json: Json<E>, before: Data, after: Data, key: Id, now: nat)
    requires Answered(json, before, after, key, now)
    ensures match Storages.Lookup(before, key, now)
            case None => after == before
            case Some(v) =>
              |Repaired(json, v)| <= MAX_STORAGE_BYTES ==>
                && Storages.Lookup(after, key, now) == Some(Repaired(json, v))
                && (Repaired(json, v) != v ==> after[key].createdAt == now && after[key].ttl == 86400)
                && (Repaired(json, v) == v ==> after == before)
  {
    hide EvictionOk, Repaired;
    if v :| Storages.Lookup(before, key, now) == Some(v) {
      if Repaired(json, v) != v && |Repaired(json, v)| <= MAX_STORAGE_BYTES {
        var evicted :| Wrote(before, after, key, Repaired(json, v), now, evicted);
        WroteRecord(before, after, key, Repaired(json, v), now, evicted);
      }
    }
  }

  // ----- the stores of a network -----

  /** One store per node, each in its own object. */
  ghost predicate Stores(cl: Cluster, storages: map<Id, Storage>)
    reads storages.Values
  {
    && storages.Keys == cl.nodes.Keys
    && (forall m, n :: m in storages && n in storages && m != n ==> storages[m] != storages[n])
    && (forall n :: n in storages ==> storages[n].Valid())
  }

  /** What all stores hold. */
  function Datas(storages: map<Id, Storage>): (r: map<Id, Data>)
    reads storages.Values
    ensures r.Keys == storages.Keys
  {
    map n | n in storages :: storages[n].data
  }

  /** Whatever can be read under the key means this value. */
  ghost predicate Agrees<E(!new)>(datas: map<Id, Data>, json: Json<E>, key: Id, value: seq<byte>, now: nat) {
    forall n :: n in datas && Storages.Lookup(datas[n], key, now).Some? ==>
      Same(json, Storages.Lookup(datas[n], key, now).value, value)
  }

  /** What a put settles: a plain value in any case, an array if nothing else can be read. */
  ghost predicate Settles<E(!new)>(datas: map<Id, Data>, json: Json<E>, key: Id, value: seq<byte>, now: nat) {
    Storable(json, value) && (json.parse(value).Some? ==> Agrees(datas, json, key, value, now))
  }

  /** Stored at `now` and not to expire before `ttl` has passed. */
  ghost predicate Holds<E(!new)>(data: Data, json: Json<E>, key: Id, value: seq<byte>, now: nat, ttl: nat) {
    key in data && Same(json, data[key].value, value) && data[key].createdAt == now && data[key].ttl >= ttl
  }

  /** What every node would return for the key right now. */
  function Snapshot(datas: map<Id, Data>, key: Id, now: nat): map<Id, seq<byte>> {
    map n | n in datas && Storages.Lookup(datas[n], key, now).Some? :: Storages.Lookup(datas[n], key, now).value
  }

  /** How the store of a node that accepts a STORE changes. */
  ghost predicate Accepted<E(!new)>(json: Json<E>, before: Data, after: Data, key: Id, value: seq<byte>, now: nat) {
    exists evicted ::
      Wrote(before, after, key, Merged(json, Storages.Lookup(before, key, now), value).0, now, evicted)
  }

  /** Whether a STORE would be sent and accepted. */
  ghost predicate Accepts<E(!new)>(json: Json<E>, before: Data, key: Id, value: seq<byte>, now: nat) {
    |value| <= MAX_VALUE_SIZE && Merged(json, Storages.Lookup(before, key, now), value).1
  }

  lemma StorableFits<E(!new)>(json: Json<E>, value: seq<byte>)
    requires Storable(json, value)
    ensures |value| <= MAX_VALUE_SIZE <= MAX_STORAGE_BYTES && Same(json, value, value)
  {
  }

  /** A node that accepts a plain value, or an array it does not disagree with, holds its meaning. */
  lemma AcceptedHolds<E(!new)>(json: Json<E>, before: Data, after: Data, key: Id, value: seq<byte>, now: nat, ttl: nat)
    requires json.Lawful() && Storable(json, value) && ttl <= DEFAULT_TTL
    requires var readable := Storages.Lookup(before, key, now);
             json.parse(value).Some? && readable.Some? ==> Same(json, readable.value, value)
    ensures Accepts(json, before, key, value, now)
    ensures Accepted(json, before, after, key, value, now) ==> Holds(after, json, key, value, now, ttl)
  {
    hide Merged, Same, Storable, Wrote;
    var existing := Storages.Lookup(before, key, now);
    StorableFits(json, value);
    MergedSame(json, existing, value);
    if Accepted(json, before, after, key, value, now) {
      var evicted :| Wrote(before, after, key, Merged(json, existing, value).0, now, evicted);
      WroteRecord(before, after, key, Merged(json, existing, value).0, now, evicted);
    }
  }

  lemma RenderedFits<E(!new)>(json: Json<E>, items: seq<E>)
    requires json.Lawful() && Bounded(json.size, items)
    ensures |json.render(items)| <= MAX_MAILBOX_VALUE_BYTES
  {
    hide SumSizes;
    assert json.parse(json.render(items)) == Some(items);
  }

  /** A merged value is never too large for a store. */
  lemma MergedFits<E(!new)>(json: Json<E>, existing: Option<seq<byte>>, value: seq<byte>)
    requires json.Lawful() && Merged(json, existing, value).1
    ensures |Merged(json, existing, value).0| <= MAX_STORAGE_BYTES
  {
    hide Combine, AnyOversize, Bounded, Excess, Json.Lawful;
    if json.parse(value).Some? {
      var all := Combine(json.size, ItemsOf(json, existing), json.parse(value).value);
      RenderedFits(json, all[Excess(json.size, all)..]);
    }
  }

  lemma OneChanged(storages: map<Id, Storage>, n: Id, before: map<Id, Data>)
    requires n in storages && before.Keys == storages.Keys
    requires forall m :: m in storages && m != n ==> storages[m].data == before[m]
    ensures Datas(storages) == before[n := storages[n].data] && Datas(storages)[n] == storages[n].data
    ensures storages[n].data == before[n] ==> Datas(storages) == before
  {
  }

  // ----- put -----

  /** One STORE call: a value too large for a message is never sent. */
  method StoreAt<E(==,!new)>(cl: Cluster, storages: map<Id, Storage>, json: Json<E>, at: Id,
                             key: Id, value: seq<byte>, now: nat)
    returns (ok: bool)
    requires Stores(cl, storages) && json.Lawful() && at in storages
    modifies storages[at]
    ensures Stores(cl, storages) && Datas(storages) == old(Datas(storages))[at := Datas(storages)[at]]
    ensures ok == Accepts(json, old(Datas(storages))[at], key, value, now)
    ensures if ok then Accepted(json, old(Datas(storages))[at], Datas(storages)[at], key, value, now)
            else Datas(storages) == old(Datas(storages))
  {
    hide Merged, Wrote;
    if |value| > MAX_VALUE_SIZE {
      OneChanged(storages, at, Datas(storages));
      return false;
    }
    ghost var existing, before := storages[at].Get(key, now), Datas(storages);
    ghost var evicted;
    ok, evicted := HandleStore(storages[at], json, key, value, now);
    OneChanged(storages, at, before);
    if ok {
      MergedFits(json, existing, value);
    }
  }

  /** The local write of `put`, and the local copy a `get` keeps. */
  method StoreLocally(cl: Cluster, storages: map<Id, Storage>, me: Id, key: Id, value: seq<byte>, ttl: nat, now: nat)
    requires Stores(cl, storages) && me in storages
    modifies storages[me]
    ensures Stores(cl, storages)
    ensures Datas(storages) == old(Datas(storages))[me := Datas(storages)[me]]
    ensures |value| > MAX_STORAGE_BYTES ==> Datas(storages) == old(Datas(storages))
    ensures |value| <= MAX_STORAGE_BYTES ==>
              key in Datas(storages)[me] && Datas(storages)[me][key] == NewRecord(value, ttl, now)
    ensures forall k :: k in Datas(storages)[me] && k != key ==>
              k in old(Datas(storages))[me] && Datas(storages)[me][k] == old(Datas(storages))[me][k]
  {
    hide EvictionOk;
    ghost var before := Datas(storages);
    var _ := storages[me].Put(key, value, ttl, now);
    OneChanged(storages, me, before);
  }

  /** Each contact that runs and accepts is a holder and has stored the value; nobody else has changed. */
  ghost predicate Replicated<E(!new)>(running: set<Id>, json: Json<E>, before: map<Id, Data>, after: map<Id, Data>,
                                      me: Id, cs: seq<Contact>, key: Id, value: seq<byte>, now: nat, holders: set<Id>) {
    && me in holders && holders <= before.Keys == after.Keys
    && (forall n :: n in holders && n != me ==> HasId(cs, n))
    && (forall c :: c in cs ==>
          (c.id in holders <==>
             c.id in before && c.id in running && Accepts(json, before[c.id], key, value, now)))
    && (forall n :: n in before ==>
          if n in holders && n != me then Accepted(json, before[n], after[n], key, value, now)
          else after[n] == before[n])
  }

  lemma ReplicatedOneMore<E(!new)>(running: set<Id>, json: Json<E>, before: map<Id, Data>, mid: map<Id, Data>,
                                   after: map<Id, Data>, me: Id, cs: seq<Contact>, c: Contact, key: Id,
                                   value: seq<byte>, now: nat, holders: set<Id>, ok: bool) returns (grown: set<Id>)
    requires Replicated(running, json, before, mid, me, cs, key, value, now, holders)
    requires c.id != me && !HasId(cs, c.id) && c.id in before
    requires c.id in after && after == mid[c.id := after[c.id]]
    requires ok == (c.id in running && Accepts(json, mid[c.id], key, value, now))
    requires if ok then Accepted(json, mid[c.id], after[c.id], key, value, now) else after == mid
    ensures |grown| == |holders| + if ok then 1 else 0
    ensures Replicated(running, json, before, after, me, cs + [c], key, value, now, grown)
  {
    hide Accepted, Accepts;
    grown := if ok then holders + {c.id} else holders;
    HasIdAppend(cs, c);
    hide HasId;
    assert c.id !in holders && mid[c.id] == before[c.id];
  }

  lemma HasIdAppend(cs: seq<Contact>, c: Contact)
    ensures forall n :: HasId(cs + [c], n) <==> HasId(cs, n) || n == c.id
    ensures forall x :: x in cs + [c] <==> x in cs || x == c
    ensures !HasId(cs, c.id) ==> forall x :: x in cs ==> x.id != c.id
  {
    assert forall x :: x in cs + [c] <==> x in cs || x == c;
    forall n ensures HasId(cs + [c], n) <==> HasId(cs, n) || n == c.id {
      if HasId(cs, n) {
        var x: Contact :| x in cs && x.id == n;
        assert x in cs + [c];
      }
    }
  }

  /** The STORE sent to the next contact, and who holds the value after it. */
  method SendStore<E(==,!new)>(cl: Cluster, storages: map<Id, Storage>, json: Json<E>, me: Id, contact: Contact,
                               key: Id, value: seq<byte>, now: nat, ghost before: map<Id, Data>,
                               ghost done: seq<Contact>, ghost were: set<Id>)
    returns (ok: bool, ghost holders: set<Id>)
    requires WellConnected(cl) && Stores(cl, storages) && json.Lawful() && me in cl.running
    requires Genuine(cl.nodes, contact) && contact.id != me && !HasId(done, contact.id)
    requires Replicated(cl.running, json, before, Datas(storages), me, done, key, value, now, were)
    modifies storages.Values
    ensures Stores(cl, storages) && |holders| == |were| + if ok then 1 else 0
    ensures Replicated(cl.running, json, before, Datas(storages), me, done + [contact], key, value, now, holders)
  {
    ghost var mid := Datas(storages);
    AtItsAddress(cl, contact);
    assert before.Keys == mid.Keys;
    assert storages.Keys == cl.nodes.Keys;
    hide WellConnected, Accepted, Accepts, Replicated, Stores, Datas, HasId, Json.Lawful;
    ok := false;
    var listener := Listener(cl, contact.addr);
    if contact.addr != cl.nodes[me] && contact.id != me && listener.Some? {
      ok := StoreAt(cl, storages, json, listener.value, key, value, now);
    }
    holders := ReplicatedOneMore(cl.running, json, before, mid, Datas(storages), me, done, contact, key, value, now,
                                 were, ok);
  }

  /**
   The replication loop of `put`: every contact is sent a STORE; the count is one more than the
   number of those that accepted it.
   */
  method Replicate<E(==,!new)>(cl: Cluster, storages: map<Id, Storage>, json: Json<E>, me: Id, closest: seq<Contact>,
                               key: Id, value: seq<byte>, now: nat)
    returns (count: nat, ghost holders: set<Id>)
    requires WellConnected(cl) && Stores(cl, storages) && json.Lawful()
    requires me in cl.running && OtherNodes(cl, me, closest)
    modifies storages.Values
    ensures Stores(cl, storages) && count == |holders|
    ensures Replicated(cl.running, json, old(Datas(storages)), Datas(storages), me, closest, key, value, now, holders)
  {
    assert me in cl.nodes;
    hide WellConnected, Genuine, Accepted, Accepts, Replicated, Stores, Datas, OtherNodes, HasId, Json.Lawful;
    ghost var before := Datas(storages);
    count := 1;
    holders := {me};
    NothingReplicated(cl.running, json, before, me, key, value, now);
    for i := 0 to |closest|
      invariant Stores(cl, storages) && count == |holders|
      invariant Replicated(cl.running, json, before, Datas(storages), me, closest[..i], key, value, now, holders)
    {
      NextContact(cl, me, closest, i);
      var ok;
      ok, holders := SendStore(cl, storages, json, me, closest[i], key, value, now, before, closest[..i], holders);
      if ok {
        count := count + 1;
      }
    }
    assert closest[..|closest|] == closest;
  }

  lemma NothingReplicated<E(!new)>(running: set<Id>, json: Json<E>, before: map<Id, Data>, me: Id, key: Id,
                                   value: seq<byte>, now: nat)
    requires me in before
    ensures Replicated(running, json, before, before, me, [], key, value, now, {me})
  {
  }

  /** The next contact is at its address and not among those before it. */
  lemma NextContact(cl: Cluster, me: Id, closest: seq<Contact>, i: nat)
    requires OtherNodes(cl, me, closest) && i < |closest|
    ensures Genuine(cl.nodes, closest[i]) && closest[i].id != me
    ensures !HasId(closest[..i], closest[i].id) && closest[..i + 1] == closest[..i] + [closest[i]]
  {
    hide Genuine;
    assert closest[i] in closest;
  }

  /** What `put` promises about a value that it settles: it is held, and by the closest node too. */
  ghost predicate Spread<E(!new)>(cl: Cluster, json: Json<E>, after: map<Id, Data>, key: Id, value: seq<byte>,
                                  now: nat, ttl: nat, holders: set<Id>) {
    && holders <= after.Keys
    && (forall n :: n in holders ==> Holds(after[n], json, key, value, now, ttl))
    && (forall best :: IsClosestNode(cl.running, key, best) ==> best in holders)
  }

  /** What `put` does to the stores: a local record, and one at each other holder. */
  ghost predicate PutDone<E(!new)>(json: Json<E>, before: map<Id, Data>, after: map<Id, Data>, me: Id,
                                   key: Id, value: seq<byte>, ttl: nat, now: nat, holders: set<Id>) {
    && me in holders && holders <= before.Keys == after.Keys
    && (|value| <= MAX_STORAGE_BYTES ==> key in after[me] && after[me][key] == NewRecord(value, ttl, now))
    && (forall n :: n in before && n != me ==>
          if n in holders then Accepted(json, before[n], after[n], key, value, now) else after[n] == before[n])
  }

  /**
   `KademliaNode::put` at node `me`: store locally, look the key up, STORE at each node found.
   The count is the number of holders: `me` and the nodes that accepted the value.
   */
  method Put<E(==,!new)>(cl: Cluster, storages: map<Id, Storage>, json: Json<E>, me: Id, rt: RoutingTable,
                         key: Id, value: seq<byte>, ttl: nat, now: nat)
    returns (count: nat, ghost holders: set<Id>)
    requires WellConnected(cl) && Stores(cl, storages) && json.Lawful()
    requires me in cl.running && rt.Valid() && rt.localId == me && rt.Rows() == cl.tables(0, me)
    modifies rt.buckets, storages.Values
    ensures Stores(cl, storages) && count == |holders|
    ensures PutDone(json, old(Datas(storages)), Datas(storages), me, key, value, ttl, now, holders)
    ensures Settles(old(Datas(storages)), json, key, value, now) ==>
              Spread(cl, json, Datas(storages), key, value, now, Min(ttl, DEFAULT_TTL), holders)
    ensures json.parse(value).None? && |value| <= 65536 ==>
              && (forall best :: IsClosestNode(cl.running, key, best) ==> best in holders)
              && forall n :: n in holders ==>
                   var datas := Datas(storages); n in datas && key in datas[n] && datas[n][key].value == value
    ensures FewSilent(cl) ==> Covers(cl.nodes, cl.running, me, rt.Rows())
  {
    hide *;
    ghost var before := Datas(storages);
    TableIsOk(cl, me);
    StoresKeys(cl, storages);
    StoreLocally(cl, storages, me, key, value, ttl, now);
    ghost var mid := Datas(storages);
    var closest := ClosestNodes(cl, me, rt, key, now);
    assert Datas(storages) == mid;
    count, holders := Replicate(cl, storages, json, me, closest, key, value, now);
    PutIsDone(cl.running, json, before, mid, Datas(storages), me, closest, key, value, ttl, now, holders);
    if Settles(before, json, key, value, now) {
      SpreadFollows(cl, json, before, mid, Datas(storages), me, closest, key, value, now, ttl, holders);
    }
    PlainSpread(cl, json, before, Datas(storages), key, value, now, Min(ttl, DEFAULT_TTL), holders);
  }

  /** The lookup of `put`: other nodes of the network, and the closest of all, if that is not `me`. */
  method ClosestNodes(cl: Cluster, me: Id, rt: RoutingTable, key: Id, now: nat) returns (closest: seq<Contact>)
    requires WellConnected(cl)
    requires me in cl.running && rt.Valid() && rt.localId == me && rt.Rows() == cl.tables(0, me)
    modifies rt.buckets
    ensures OtherNodes(cl, me, closest) && Among(cl, me, key, closest)
    ensures FewSilent(cl) ==> Covers(cl.nodes, cl.running, me, rt.Rows())
  {
    hide WellConnected, Closest, ContactsOf, TableOk, Finished, Answer, ClosestKnown, OtherNodes, Among, OverWire;
    TableIsOk(cl, me);
    ghost var final, learned;
    closest, final, learned := LookupNodes(me, cl.nodes[me], rt, key, NodeNetwork(cl, key, now));
    AnswersAreOtherNodes(cl, me, key, now, final);
    AllClosestListed(cl, me, key, now, final);
    if FewSilent(cl) {
      NodeLookupKeepsCovers(cl, me, cl.tables(0, me), key, now, NotSelf(me, cl.nodes[me]), learned);
    }
  }

  /** Every closest running node is the searching node or listed. */
  ghost predicate Among(cl: Cluster, me: Id, key: Id, cs: seq<Contact>) {
    forall best :: IsClosestNode(cl.running, key, best) ==>
      best in cl.nodes && best in cl.running && (best != me ==> HasId(cs, best))
  }

  lemma StoresKeys(cl: Cluster, storages: map<Id, Storage>)
    requires Stores(cl, storages)
    ensures storages.Keys == cl.nodes.Keys && Datas(storages).Keys == cl.nodes.Keys
  {
  }

  lemma PutIsDone<E(!new)>(running: set<Id>, json: Json<E>, before: map<Id, Data>, mid: map<Id, Data>,
                           after: map<Id, Data>, me: Id, cs: seq<Contact>, key: Id, value: seq<byte>, ttl: nat,
                           now: nat, holders: set<Id>)
    requires me in before && me in mid && mid == before[me := mid[me]]
    requires |value| <= MAX_STORAGE_BYTES ==> key in mid[me] && mid[me][key] == NewRecord(value, ttl, now)
    requires Replicated(running, json, mid, after, me, cs, key, value, now, holders)
    ensures PutDone(json, before, after, me, key, value, ttl, now, holders)
  {
    hide Accepted, Accepts;
  }

  lemma AllClosestListed(cl: Cluster, me: Id, key: Id, now: nat, final: seq<Candidate>)
    requires WellConnected(cl) && me in cl.running
    requires var keep := NotSelf(me, cl.nodes[me]);
             Finished(me, key, NodeNetwork(cl, key, now), keep, false, Kept(ClosestKnown(cl, 0, me, key), keep), final)
    ensures Among(cl, me, key, Answer(final))
  {
    assert cl.running <= cl.nodes.Keys;
    hide WellConnected, Finished, Answer, ClosestKnown, Kept, Genuine, NodeNetwork;
    forall best | IsClosestNode(cl.running, key, best) && best != me ensures HasId(Answer(final), best) {
      ClosestIsAmong(cl, me, key, now, final, best);
      assert Answer(final)[0] in Answer(final);
    }
  }

  lemma SpreadFollows<E(!new)>(cl: Cluster, json: Json<E>, before: map<Id, Data>, mid: map<Id, Data>,
                               after: map<Id, Data>, me: Id, cs: seq<Contact>, key: Id, value: seq<byte>, now: nat,
                               ttl: nat, holders: set<Id>)
    requires json.Lawful() && Settles(before, json, key, value, now)
    requires before.Keys == cl.nodes.Keys && me in before && me in mid && mid == before[me := mid[me]]
    requires Replicated(cl.running, json, mid, after, me, cs, key, value, now, holders)
    requires |value| <= MAX_STORAGE_BYTES ==> key in mid[me] && mid[me][key] == NewRecord(value, ttl, now)
    requires Among(cl, me, key, cs)
    ensures Spread(cl, json, after, key, value, now, Min(ttl, DEFAULT_TTL), holders)
  {
    hide Accepted, Accepts, Storable, IsClosestNode, Json.Lawful, Same, Storages.Lookup, HasId;
    StorableFits(json, value);
    var least := Min(ttl, DEFAULT_TTL);
    assert Holds(mid[me], json, key, value, now, least);
    forall n | n in mid && n != me
      ensures Accepts(json, mid[n], key, value, now)
      ensures n in holders ==> Holds(after[n], json, key, value, now, least)
    {
      AcceptedHolds(json, mid[n], after[n], key, value, now, least);
    }
    hide Holds;
    forall best | IsClosestNode(cl.running, key, best) ensures best in holders {
      if best != me {
        ListedHolds(cs, best);
      }
    }
  }

  /** A plain value is settled whatever was held, and then held byte for byte. */
  lemma PlainSpread<E(!new)>(cl: Cluster, json: Json<E>, before: map<Id, Data>, after: map<Id, Data>, key: Id,
                             value: seq<byte>, now: nat, ttl: nat, holders: set<Id>)
    requires Settles(before, json, key, value, now) ==> Spread(cl, json, after, key, value, now, ttl, holders)
    ensures json.parse(value).None? && |value| <= 65536 ==>
              && (forall best :: IsClosestNode(cl.running, key, best) ==> best in holders)
              && forall n :: n in holders ==> n in after && key in after[n] && after[n][key].value == value
  {
    hide IsClosestNode, Agrees;
  }

  lemma ListedHolds(cs: seq<Contact>, n: Id)
    requires HasId(cs, n)
    ensures exists c :: c in cs && c.id == n
  {
  }

  lemma HeldAgrees<E(!new)>(data: Data, json: Json<E>, key: Id, value: seq<byte>, now: nat, ttl: nat)
    requires Holds(data, json, key, value, now, ttl)
    ensures forall later :: Storages.Lookup(data, key, later).Some? ==>
              Same(json, Storages.Lookup(data, key, later).value, value)
  {
    hide Same;
  }

  // ----- get -----

  ghost predicate AllAnswered<E(!new)>(json: Json<E>, before: map<Id, Data>, after: map<Id, Data>, asked: set<Id>,
                                       key: Id, now: nat) {
    && before.Keys == after.Keys
    && (forall n :: n in before ==>
          if n in asked then Answered(json, before[n], after[n], key, now) else after[n] == before[n])
  }

  /** One FIND_VALUE call. */
  method AnswerAt<E(==,!new)>(cl: Cluster, storages: map<Id, Storage>, json: Json<E>, at: Id, key: Id, now: nat)
    requires Stores(cl, storages) && json.Lawful() && at in storages
    modifies storages[at]
    ensures Stores(cl, storages) && Datas(storages) == old(Datas(storages))[at := Datas(storages)[at]]
    ensures Answered(json, old(Datas(storages))[at], Datas(storages)[at], key, now)
  {
    hide Answered, Repaired;
    ghost var before := Datas(storages);
    var _ := HandleFindValue(storages[at], json, key, now);
    OneChanged(storages, at, before);
  }

  /** The nodes asked write back what they repaired. */
  method WriteBack<E(==,!new)>(cl: Cluster, storages: map<Id, Storage>, json: Json<E>, key: Id, asked: set<Id>,
                               now: nat)
    requires Stores(cl, storages) && json.Lawful() && asked <= storages.Keys
    modifies storages.Values
    ensures Stores(cl, storages)
    ensures AllAnswered(json, old(Datas(storages)), Datas(storages), asked, key, now)
  {
    hide Answered, Stores, Datas;
    ghost var before := Datas(storages);
    var left := asked;
    while left != {}
      invariant Stores(cl, storages) && left <= asked
      invariant AllAnswered(json, before, Datas(storages), asked - left, key, now)
      decreases |left|
    {
      var n :| n in left;
      AnswerAt(cl, storages, json, n, key, now);
      assert asked - (left - {n}) == asked - left + {n};
      left := left - {n};
    }
    assert asked - {} == asked;
  }

  /**
   What `get` returns and does: a local value as it is; else what one of the nodes asked answered,
   which `me` then keeps; the nodes asked write back what they repaired.
   */
  ghost predicate GetDone<E(!new)>(json: Json<E>, before: map<Id, Data>, after: map<Id, Data>, me: Id, key: Id,
                                   ttl: nat, now: nat, result: Option<seq<byte>>, asked: set<Id>) {
    && me in before && before.Keys == after.Keys
    && var snapshot := Snapshot(before, key, now);
       if me in snapshot then result == Some(snapshot[me]) && after == before
       else if result.None? then after == before
       else
         && asked <= snapshot.Keys - {me}
         && (exists n :: n in asked && result.value == Repaired(json, snapshot[n]))
         && (forall n :: n in before && n != me ==>
               if n in asked then Answered(json, before[n], after[n], key, now) else after[n] == before[n])
         && (|result.value| <= MAX_STORAGE_BYTES ==>
               key in after[me] && after[me][key] == NewRecord(result.value, ttl, now))
  }

  lemma GetIsDone<E(!new)>(json: Json<E>, before: map<Id, Data>, mid: map<Id, Data>, after: map<Id, Data>, me: Id,
                           key: Id, ttl: nat, now: nat, value: seq<byte>, asked: set<Id>, at: Id)
    requires AllAnswered(json, before, mid, asked, key, now)
    requires var snapshot := Snapshot(before, key, now);
             AskedOthers(snapshot, asked, me, at) && value == Repaired(json, snapshot[at]) && me !in snapshot
    requires me in before && me in after && after == mid[me := after[me]]
    requires |value| <= MAX_STORAGE_BYTES ==> key in after[me] && after[me][key] == NewRecord(value, ttl, now)
    ensures GetDone(json, before, after, me, key, ttl, now, Some(value), asked)
  {
    hide Answered, Repaired, Storages.Lookup;
  }

  /** The end of a successful `get`: the answering nodes repair, `me` keeps the value. */
  method KeepFound<E(==,!new)>(cl: Cluster, storages: map<Id, Storage>, json: Json<E>, me: Id, key: Id,
                               value: seq<byte>, ttl: nat, now: nat, asked: set<Id>, ghost at: Id)
    requires Stores(cl, storages) && json.Lawful() && me in storages
    requires var snapshot := Snapshot(Datas(storages), key, now);
             AskedOthers(snapshot, asked, me, at) && value == Repaired(json, snapshot[at]) && me !in snapshot
    modifies storages.Values
    ensures Stores(cl, storages)
    ensures GetDone(json, old(Datas(storages)), Datas(storages), me, key, ttl, now, Some(value), asked)
  {
    hide Stores, Datas, GetDone, AllAnswered, Repaired, Storages.Lookup;
    ghost var before := Datas(storages);
    WriteBack(cl, storages, json, key, asked, now);
    ghost var mid := Datas(storages);
    StoreLocally(cl, storages, me, key, value, ttl, now);
    GetIsDone(json, before, mid, Datas(storages), me, key, ttl, now, value, asked, at);
  }

  /** A value a lookup finds is what another node of the network answers. */
  lemma AnswererKnown<E(!new)>(cl: Cluster, json: Json<E>, me: Id, key: Id, now: nat, stored: map<Id, seq<byte>>,
                               value: seq<byte>, from: Contact)
    requires WellConnected(cl) && me in cl.running && Within(cl, stored)
    requires var net := ValueNetwork(cl, json, stored, key, now);
             && Heard(net, Kept(ClosestKnown(cl, 0, me, key), NotSelf(me, cl.nodes[me])), from) && from.id != me
             && exists h: nat :: net(h, from) == ValueReply(value)
    ensures var at := Listener(cl, from.addr);
            at.Some? && at.value != me && at.value in stored && value == Repaired(json, stored[at.value])
  {
    assert me in cl.nodes;
    hide WellConnected, ClosestKnown, Repaired, OverWire, Genuine, Kept;
    var net := ValueNetwork(cl, json, stored, key, now);
    var h: nat :| net(h, from) == ValueReply(value);
    var at := Listener(cl, from.addr).value;
    ValueOverWire(at, Repaired(json, stored[at]), now);
    KnownAreGenuine(cl, 0, me, key);
    ValueRepliesGenuine(cl, json, stored, key, now);
    AtItsAddress(cl, from);
  }

  /** The value lookup of `get`: what it found and which node answered, or that nobody close has it. */
  method Search<E(==,!new)>(cl: Cluster, json: Json<E>, me: Id, rt: RoutingTable, key: Id,
                            snapshot: map<Id, seq<byte>>, now: nat)
    returns (found: Option<(seq<byte>, Id)>)
    requires WellConnected(cl) && json.Lawful() && Within(cl, snapshot) && me !in snapshot
    requires me in cl.running && rt.Valid() && rt.localId == me && rt.Rows() == cl.tables(0, me)
    modifies rt.buckets
    ensures found.Some? ==>
              var (value, at) := found.value;
              at != me && at in snapshot && at in cl.running && value == Repaired(json, snapshot[at])
    ensures found.None? ==>
              forall best :: IsClosestNode(cl.running, key, best) ==> best !in snapshot
    ensures FewSilent(cl) ==> Covers(cl.nodes, cl.running, me, rt.Rows())
  {
    hide WellConnected, Closest, ContactsOf, TableOk, IsClosestNode, Finished, Answer, Repaired, Heard, ClosestKnown,
      Kept, ValueNetwork;
    TableIsOk(cl, me);
    var result;
    ghost var final, learned;
    result, final, learned := LookupValue(me, cl.nodes[me], rt, key, ValueNetwork(cl, json, snapshot, key, now));
    if FewSilent(cl) {
      ValueLookupKeepsCovers(cl, json, snapshot, me, cl.tables(0, me), key, now, NotLocalId(me), learned);
    }
    match result {
      case Found(value, from) =>
        AnswererKnown(cl, json, me, key, now, snapshot, value, from);
        return Some((value, Listener(cl, from.addr).value));
      case ClosestNodes(_) =>
        NobodyHeld(cl, json, me, key, now, snapshot, final);
        return None;
    }
  }

  /**
   `KademliaNode::get` at node `me`: the local store, then a value lookup, then caching. Other
   nodes asked in the same round may have answered too; `others` says which.
   */
  method Get<E(==,!new)>(cl: Cluster, storages: map<Id, Storage>, json: Json<E>, me: Id, rt: RoutingTable,
                         key: Id, ttl: nat, now: nat, others: set<Id>)
    returns (result: Option<seq<byte>>, ghost asked: set<Id>)
    requires WellConnected(cl) && Stores(cl, storages) && json.Lawful()
    requires me in cl.running && rt.Valid() && rt.localId == me && rt.Rows() == cl.tables(0, me)
    modifies rt.buckets, storages.Values
    ensures Stores(cl, storages)
    ensures asked <= cl.running
    ensures GetDone(json, old(Datas(storages)), Datas(storages), me, key, ttl, now, result, asked)
    ensures result.None? ==>
              forall best :: IsClosestNode(cl.running, key, best) ==> best !in Snapshot(old(Datas(storages)), key, now)
    ensures FewSilent(cl) ==> Covers(cl.nodes, cl.running, me, rt.Rows())
  {
    hide WellConnected, IsClosestNode, Json.Lawful, Datas, Snapshot, GetDone;
    TableIsOk(cl, me);
    assert me in storages;
    LocalSnapshot(storages, me, key, now);
    var local := storages[me].Get(key, now);
    if local.Some? {
      GetWithoutValue(json, Datas(storages), me, key, ttl, now);
      return local, {};
    }
    result, asked := GetRemotely(cl, storages, json, me, rt, key, ttl, now, others);
  }

  /** What `get` does without a local value. */
  method GetRemotely<E(==,!new)>(cl: Cluster, storages: map<Id, Storage>, json: Json<E>, me: Id, rt: RoutingTable,
                                 key: Id, ttl: nat, now: nat, others: set<Id>)
    returns (result: Option<seq<byte>>, ghost asked: set<Id>)
    requires WellConnected(cl) && Stores(cl, storages) && json.Lawful()
    requires me in cl.running && rt.Valid() && rt.localId == me && rt.Rows() == cl.tables(0, me)
    requires me !in Snapshot(Datas(storages), key, now)
    modifies rt.buckets, storages.Values
    ensures Stores(cl, storages)
    ensures asked <= cl.running
    ensures GetDone(json, old(Datas(storages)), Datas(storages), me, key, ttl, now, result, asked)
    ensures result.None? ==>
              forall best :: IsClosestNode(cl.running, key, best) ==> best !in Snapshot(old(Datas(storages)), key, now)
    ensures FewSilent(cl) ==> Covers(cl.nodes, cl.running, me, rt.Rows())
  {
    hide *;
    TableIsOk(cl, me);
    SnapshotKeys(cl, storages, key, now);
    ghost var before := Datas(storages);
    var snapshot := Snapshot(Datas(storages), key, now);
    var found := Search(cl, json, me, rt, key, snapshot, now);
    assert Datas(storages) == before;
    if found.None? {
      GetWithoutValue(json, before, me, key, ttl, now);
      return None, {};
    }
    var (value, at) := found.value;
    var answering := Answering(snapshot, others * cl.running, me, at);
    KeepFound(cl, storages, json, me, key, value, ttl, now, answering, at);
    return Some(value), answering;
  }

  /** The node that answered, and those of the others that had the value as well. */
  function Answering(snapshot: map<Id, seq<byte>>, others: set<Id>, me: Id, at: Id): (asked: set<Id>)
    requires at in snapshot && at != me
    ensures AskedOthers(snapshot, asked, me, at) && asked <= others + {at}
  {
    (others * snapshot.Keys - {me}) + {at}
  }

  ghost predicate AskedOthers(snapshot: map<Id, seq<byte>>, asked: set<Id>, me: Id, at: Id) {
    asked <= snapshot.Keys - {me} && at in asked
  }

  lemma LocalSnapshot(storages: map<Id, Storage>, me: Id, key: Id, now: nat)
    requires me in storages
    ensures var snapshot := Snapshot(Datas(storages), key, now);
            storages[me].Get(key, now) == if me in snapshot then Some(snapshot[me]) else None
  {
  }

  ghost predicate Within(cl: Cluster, stored: map<Id, seq<byte>>) {
    stored.Keys <= cl.nodes.Keys
  }

  lemma SnapshotKeys(cl: Cluster, storages: map<Id, Storage>, key: Id, now: nat)
    requires Stores(cl, storages)
    ensures Within(cl, Snapshot(Datas(storages), key, now)) && storages.Keys == cl.nodes.Keys
  {
  }

  /** A `get` that finds the value locally, or nowhere, changes nothing. */
  lemma GetWithoutValue<E(!new)>(json: Json<E>, before: map<Id, Data>, me: Id, key: Id, ttl: nat, now: nat)
    requires me in before
    ensures var snapshot := Snapshot(before, key, now);
            var result := if me in snapshot then Some(snapshot[me]) else None;
            GetDone(json, before, before, me, key, ttl, now, result, {})
  {
  }

  lemma NobodyHeld<E(!new)>(cl: Cluster, json: Json<E>, me: Id, key: Id, now: nat, snapshot: map<Id, seq<byte>>,
                           final: seq<Candidate>)
    requires WellConnected(cl) && json.Lawful() && me in cl.running && me !in snapshot
    requires Finished(me, key, ValueNetwork(cl, json, snapshot, key, now), NotLocalId(me), true,
                      Kept(ClosestKnown(cl, 0, me, key), NotSelf(me, cl.nodes[me])), final)
    ensures forall best :: IsClosestNode(cl.running, key, best) ==> best !in snapshot
  {
    hide WellConnected, IsClosestNode, Finished, ClosestKnown, Kept, ValueNetwork, Json.Lawful;
    forall best | IsClosestNode(cl.running, key, best) ensures best !in snapshot {
      if best != me {
        NotHeldByClosest(cl, json, me, key, now, snapshot, final, best);
      }
    }
  }

  // ----- agreement -----

  /** What could be read elsewhere before the put, and so possibly after it. */
  ghost predicate Stale<E(!new)>(json: Json<E>, readable: map<Id, seq<byte>>, holders: set<Id>, v: seq<byte>) {
    exists n :: n in readable && n !in holders && (v == readable[n] || v == Repaired(json, readable[n]))
  }

  /** What can be read after a put: its value at every holder, and elsewhere what could be read before. */
  lemma ReadableAfterPut<E(!new)>(cl: Cluster, json: Json<E>, before: map<Id, Data>, after: map<Id, Data>, me: Id,
                                  key: Id, value: seq<byte>, ttl: nat, now: nat, holders: set<Id>, later: nat, n: Id)
    requires PutDone(json, before, after, me, key, value, ttl, now, holders) && now <= later
    requires Spread(cl, json, after, key, value, now, Min(ttl, DEFAULT_TTL), holders)
    requires n in Snapshot(after, key, later)
    ensures n in holders ==> Same(json, Snapshot(after, key, later)[n], value)
    ensures n !in holders ==>
              && n in Snapshot(before, key, now)
              && Snapshot(before, key, now)[n] == Snapshot(after, key, later)[n]
  {
    hide Accepted, Same, IsClosestNode, Holds;
    if n in holders {
      HeldAgrees(after[n], json, key, value, now, Min(ttl, DEFAULT_TTL));
    }
  }

  /** Whatever a `get` returns after a put is its value, or stale. */
  lemma GetMeaning<E(!new)>(cl: Cluster, json: Json<E>, start: map<Id, Data>, before: map<Id, Data>,
                            after: map<Id, Data>, putter: Id, me: Id, key: Id, value: seq<byte>, ttl: nat, putTime: nat,
                            holders: set<Id>, now: nat, result: Option<seq<byte>>, asked: set<Id>)
    requires json.Lawful() && Storable(json, value) && putTime <= now
    requires PutDone(json, start, before, putter, key, value, ttl, putTime, holders)
    requires Spread(cl, json, before, key, value, putTime, Min(ttl, DEFAULT_TTL), holders)
    requires GetDone(json, before, after, me, key, ttl, now, result, asked)
    ensures result.Some? ==>
              || Same(json, result.value, value)
              || Stale(json, Snapshot(start, key, putTime), holders, result.value)
  {
    hide Answered, Repaired, Same, Storable, Json.Lawful, PutDone, Spread, Snapshot;
    var snapshot := Snapshot(before, key, now);
    forall n | n in snapshot
      ensures n in holders ==>
        && Same(json, snapshot[n], value) && Same(json, Repaired(json, snapshot[n]), value)
        && |Repaired(json, snapshot[n])| <= MAX_VALUE_SIZE
      ensures n !in holders ==> n in Snapshot(start, key, putTime) && Snapshot(start, key, putTime)[n] == snapshot[n]
    {
      ReadableAfterPut(cl, json, start, before, putter, key, value, ttl, putTime, holders, now, n);
      if n in holders {
        RepairedSame(json, snapshot[n], value);
      }
    }
  }

  /** Where everybody agrees, what is stale means the same. */
  lemma StaleAgrees<E(!new)>(json: Json<E>, datas: map<Id, Data>, key: Id, value: seq<byte>, now: nat, holders: set<Id>)
    requires json.Lawful() && Storable(json, value) && Agrees(datas, json, key, value, now)
    ensures forall v :: Stale(json, Snapshot(datas, key, now), holders, v) ==> Same(json, v, value)
  {
    hide Repaired, Same, Storable, Json.Lawful;
    var snapshot := Snapshot(datas, key, now);
    forall n | n in snapshot
      ensures Same(json, snapshot[n], value) && Same(json, Repaired(json, snapshot[n]), value)
      ensures |Repaired(json, snapshot[n])| <= MAX_VALUE_SIZE
    {
      RepairedSame(json, snapshot[n], value);
    }
  }

  lemma HeldIsReadable<E(!new)>(datas: map<Id, Data>, json: Json<E>, n: Id, key: Id, value: seq<byte>, now: nat,
                                ttl: nat, later: nat)
    requires n in datas && Holds(datas[n], json, key, value, now, ttl)
    requires now <= later <= now + ttl
    ensures n in Snapshot(datas, key, later)
  {
    hide Same;
  }

  /**
   Agreement: after a put, at any node, of a value that is settled - anything that is not a JSON
   array, whatever was held before, or an array of distinct items within the bounds under a key
   where nothing else can be read - a get at any node returns a value that means the same until
   it expires, or what a node that is no holder could read before the put; where everybody agreed,
   that means the same as well. In between, tables may change and nodes may stop and start, as long
   as the routing condition holds again when the get runs and a running node closest to the key is
   still that.
   */
  method PutThenGet<E(==,!new)>(cl: Cluster, later: Cluster, storages: map<Id, Storage>, json: Json<E>,
                                putter: Id, putterTable: RoutingTable, getter: Id, getterTable: RoutingTable,
                                key: Id, value: seq<byte>, ttl: nat, putTime: nat, getTime: nat, others: set<Id>)
    returns (result: Option<seq<byte>>, ghost holders: set<Id>)
    requires WellConnected(cl) && WellConnected(later) && later.nodes == cl.nodes
    requires exists best :: IsClosestNode(cl.running, key, best) && IsClosestNode(later.running, key, best)
    requires Stores(cl, storages) && json.Lawful()
    requires Settles(Datas(storages), json, key, value, putTime)
    requires putter in cl.running && putterTable.Valid() && putterTable.localId == putter
    requires putterTable.Rows() == cl.tables(0, putter)
    requires getter in later.running && getterTable.Valid() && getterTable.localId == getter
    requires getterTable.Rows() == later.tables(0, getter)
    requires forall b :: b in putterTable.buckets ==> b !in getterTable.buckets
    requires putTime <= getTime <= putTime + Min(ttl, DEFAULT_TTL)
    modifies putterTable.buckets, getterTable.buckets, storages.Values
    ensures result.Some?
    ensures || Same(json, result.value, value)
            || Stale(json, Snapshot(old(Datas(storages)), key, putTime), holders, result.value)
    ensures Agrees(old(Datas(storages)), json, key, value, putTime) ==> Same(json, result.value, value)
    ensures forall best :: IsClosestNode(cl.running, key, best) ==> best in holders
  {
    hide *;
    ghost var best :| IsClosestNode(cl.running, key, best) && IsClosestNode(later.running, key, best);
    ghost var start := Datas(storages);
    SettledIsStorable(start, json, key, value, putTime);
    var count;
    count, holders := Put(cl, storages, json, putter, putterTable, key, value, ttl, putTime);
    RowsUnchanged(getterTable);
    ghost var before := Datas(storages);
    SpreadReadable(cl, json, before, key, value, putTime, Min(ttl, DEFAULT_TTL), holders, best, getTime);
    SameStores(cl, later, storages);
    ghost var asked;
    result, asked := Get(later, storages, json, getter, getterTable, key, ttl, getTime, others);
    GetMeaning(cl, json, start, before, Datas(storages), putter, getter, key, value, ttl, putTime, holders, getTime,
               result, asked);
    if Agrees(start, json, key, value, putTime) {
      StaleAgrees(json, start, key, value, putTime, holders);
    }
  }

  lemma SettledIsStorable<E(!new)>(datas: map<Id, Data>, json: Json<E>, key: Id, value: seq<byte>, now: nat)
    requires Settles(datas, json, key, value, now)
    ensures Storable(json, value)
  {
  }

  twostate lemma RowsUnchanged(t: RoutingTable)
    requires t.Valid() && forall b :: b in t.buckets ==> old(allocated(b)) && unchanged(b)
    ensures t.Rows() == old(t.Rows())
  {
    forall i | 0 <= i < NUM_BUCKETS ensures t.buckets[i].contacts == old(t.buckets[i].contacts) {
      assert t.buckets[i] in t.buckets;
    }
  }

  lemma SameStores(cl: Cluster, later: Cluster, storages: map<Id, Storage>)
    requires Stores(cl, storages) && later.nodes == cl.nodes
    ensures Stores(later, storages)
  {
  }

  /** What was spread can still be read at the closest node. */
  lemma SpreadReadable<E(!new)>(cl: Cluster, json: Json<E>, datas: map<Id, Data>, key: Id, value: seq<byte>, now: nat,
                                ttl: nat, holders: set<Id>, best: Id, later: nat)
    requires Spread(cl, json, datas, key, value, now, ttl, holders) && IsClosestNode(cl.running, key, best)
    requires now <= later <= now + ttl
    ensures best in Snapshot(datas, key, later)
    ensures forall n :: IsClosestNode(cl.running, key, n) ==> n in holders
  {
    hide IsClosestNode, Holds, Snapshot;
    HeldIsReadable(datas, json, best, key, value, now, ttl, later);
  }
}
