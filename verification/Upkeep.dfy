/**
 The routing condition of a network looks after itself (nodex-kademlia/src/rpc.rs, lookup.rs): it
 is kept by whatever the receive loop and the lookups of a node do to its table.
 */
module Upkeep {
  import opened NodeIds
  import opened Contacts
  import opened RoutingTables
  import opened ReceiveLoops
  import opened Networks
  import opened Lookup
  import opened Mailbox
  import opened Bytes

  /** Datagrams come from running nodes, and lookups are told of nodes of the network only. */
  ghost predicate FromNetwork(nodes: Nodes, running: set<Id>, step: Step) {
    match step
    case Datagram(sender, _) => Genuine(nodes, sender) && sender.id in running
    case Learn(contact) => Genuine(nodes, contact)
    case _ => true
  }

  /** The routing condition, and what the receive loop needs to keep it. */
  ghost predicate Tended(nodes: Nodes, running: set<Id>, local: Id, s: State): (r: bool)
    ensures r ==> |s.rows| == NUM_BUCKETS
  {
    && Covers(nodes, running, local, s.rows) && NoRivals(local, s)
    && forall c :: c in s.waiting ==> Genuine(nodes, c) && c.id in running
  }

  lemma UpdatedBucket(nodes: Nodes, running: set<Id>, cs: seq<Contact>, c: Contact)
    requires (forall x :: x in cs ==> Genuine(nodes, x)) && Genuine(nodes, c)
    ensures forall x :: x in BucketUpdate(cs, c).0 ==> Genuine(nodes, x)
    ensures NamesRunning(running, cs) ==> NamesRunning(running, BucketUpdate(cs, c).0)
  {
    var p, r := IndexOf(cs, c.id), BucketUpdate(cs, c).0;
    if p < |cs| {
      assert cs[p] in cs && r == Without(cs, p) + [cs[p].(lastSeen := c.lastSeen)];
      assert forall x :: x in Without(cs, p) ==> x in cs;
    }
    if NamesRunning(running, cs) {
      var x: Contact :| x in cs && x.id in running;
      var k :| 0 <= k < |cs| && cs[k] == x;
      var at := if p == |cs| || k < p then k else if k == p then |r| - 1 else k - 1;
      assert r[at].id == x.id && r[at] in r;
    }
  }

  lemma ReplacedBucket(nodes: Nodes, running: set<Id>, cs: seq<Contact>, c: Contact)
    requires (forall x :: x in cs ==> Genuine(nodes, x)) && Genuine(nodes, c) && c.id in running
    ensures forall x :: x in BucketReplaceOldest(cs, c) ==> Genuine(nodes, x)
    ensures NamesRunning(running, BucketReplaceOldest(cs, c))
  {
    var r := BucketReplaceOldest(cs, c);
    assert r[|r| - 1] == c;
  }

  /** As many ids as contacts, if no id is listed twice. */
  lemma {:induction false} NoMoreThanIds(cs: set<Contact>, ids: set<Id>)
    requires forall c :: c in cs ==> c.id in ids
    requires forall c, d :: c in cs && d in cs && c.id == d.id ==> c == d
    ensures |cs| <= |ids|
  {
    if cs != {} {
      var c :| c in cs;
      NoMoreThanIds(cs - {c}, ids - {c.id});
    }
  }

  lemma SilentFew(nodes: Nodes, running: set<Id>, local: Id, rows: Rows)
    requires TableOk(local, rows) && forall c :: c in ContactsOf(rows) ==> Genuine(nodes, c)
    ensures |Silent(running, ContactsOf(rows))| <= |nodes.Keys - running|
  {
    hide TableOk, ContactsOf;
    var cs := ContactsOf(rows);
    TableContactsDistinct(local, rows);
    NoMoreThanIds(Silent(running, cs), nodes.Keys - running);
  }

  /** A table whose buckets stay genuine and keep naming running nodes keeps the routing condition. */
  lemma BucketsKeepCovers(nodes: Nodes, running: set<Id>, local: Id, rows: Rows, after: Rows)
    requires Covers(nodes, running, local, rows) && |nodes.Keys - running| < K
    requires TableOk(local, after)
    requires forall i :: 0 <= i < NUM_BUCKETS ==> forall x :: x in after[i] ==> Genuine(nodes, x)
    requires forall i :: 0 <= i < NUM_BUCKETS && NamesRunning(running, rows[i]) ==> NamesRunning(running, after[i])
    ensures Covers(nodes, running, local, after)
  {
    hide ContactsOf, BucketIndex, Genuine, NamesRunning, BucketOk;
    forall x | x in ContactsOf(after) ensures Genuine(nodes, x) {
      ContactsOfMembers(after, x);
    }
    SilentFew(nodes, running, local, after);
  }

  /** Fewer than K nodes being silent, each step of the receive loop keeps the routing condition. */
  lemma NextKeepsCovers(nodes: Nodes, running: set<Id>, local: Id, s: State, step: Step)
    requires |nodes.Keys - running| < K
    requires Tended(nodes, running, local, s) && FromNetwork(nodes, running, step)
    requires StartsPing(local, s, step) ==> !HasId(s.waiting, step.sender.id)
    ensures Tended(nodes, running, local, Next(local, s, step))
  {
    assert TableOk(local, s.rows);
    hide TableOk, Covers, NamesRunning, NoRivals, StartsPing, Genuine, FromNetwork, Next;
    var r := Next(local, s, step);
    NextKeepsNoRivals(local, s, step);
    forall i | 0 <= i < NUM_BUCKETS
      ensures forall x :: x in r.rows[i] ==> Genuine(nodes, x)
      ensures NamesRunning(running, s.rows[i]) ==> NamesRunning(running, r.rows[i])
    {
      StepKeepsBucket(nodes, running, local, s, step, i);
    }
    StepKeepsBucket(nodes, running, local, s, step, 0);
    BucketsKeepCovers(nodes, running, local, s.rows, r.rows);
  }

  lemma StepKeepsBucket(nodes: Nodes, running: set<Id>, local: Id, s: State, step: Step, i: nat)
    requires Tended(nodes, running, local, s) && FromNetwork(nodes, running, step) && i < NUM_BUCKETS
    ensures var r := Next(local, s, step);
            && (forall x :: x in r.rows[i] ==> Genuine(nodes, x))
            && (NamesRunning(running, s.rows[i]) ==> NamesRunning(running, r.rows[i]))
            && (forall c :: c in r.waiting ==> Genuine(nodes, c) && c.id in running)
  {
    hide ContactsOf, BucketIndex, BucketUpdate, BucketReplaceOldest, NoRivals, StartsPing, Genuine, NamesRunning;
    forall x | x in s.rows[i] ensures Genuine(nodes, x) {
      ContactsOfMembers(s.rows, x);
    }
    match step
    case Datagram(c, _) => UpdatedBucket(nodes, running, s.rows[i], c);
    case Learn(c) => UpdatedBucket(nodes, running, s.rows[i], c);
    case PingAnswered(_) =>
    case PingFailed(k) =>
      if k < |s.waiting| {
        assert s.waiting[k] in s.waiting;
        ReplacedBucket(nodes, running, s.rows[i], s.waiting[k]);
      }
  }

  /**
   The routing condition is an invariant of the network: once it holds at a node, every run of
   the receive loop in which no sender is pinged for twice at once keeps it, and every lookup
   that learns of nodes of the network does.
   */
  lemma {:induction false} RunKeepsCovers(nodes: Nodes, running: set<Id>, local: Id, s: State, steps: seq<Step>)
    requires |nodes.Keys - running| < K
    requires Tended(nodes, running, local, s) && OnePingEach(local, s, steps)
    requires forall step :: step in steps ==> FromNetwork(nodes, running, step)
    ensures Tended(nodes, running, local, ReceiveLoops.Run(local, s, steps))
    decreases |steps|
  {
    hide Tended, Next, StartsPing, FromNetwork;
    if steps != [] {
      assert steps[0] in steps && forall step :: step in steps[1..] ==> step in steps;
      NextKeepsCovers(nodes, running, local, s, steps[0]);
      RunKeepsCovers(nodes, running, local, Next(local, s, steps[0]), steps[1..]);
    }
  }

  // ----- lookups -----

  /** What a lookup on the network teaches the table are nodes of the network. */
  lemma TaughtFromNetwork(nodes: Nodes, running: set<Id>, net: Network, keep: Contact -> bool, learned: seq<Contact>)
    requires RepliesGenuine(nodes, net) && Taught(net, keep, learned)
    ensures forall c :: c in learned ==> Genuine(nodes, c) && FromNetwork(nodes, running, Learn(c))
  {
    hide Genuine;
  }

  lemma UpdateKeepsBucketGenuine(nodes: Nodes, running: set<Id>, local: Id, rows: Rows, c: Contact, i: nat)
    requires Covers(nodes, running, local, rows) && Genuine(nodes, c) && i < NUM_BUCKETS
    ensures var after := Apply(local, rows, Op.Update(c));
            && (forall x :: x in after[i] ==> Genuine(nodes, x))
            && (NamesRunning(running, rows[i]) ==> NamesRunning(running, after[i]))
  {
    hide ContactsOf, BucketIndex, BucketUpdate, Genuine, NamesRunning, Ignored;
    forall x | x in rows[i] ensures Genuine(nodes, x) {
      ContactsOfMembers(rows, x);
    }
    UpdatedBucket(nodes, running, rows[i], c);
  }

  lemma UpdateKeepsCovers(nodes: Nodes, running: set<Id>, local: Id, rows: Rows, c: Contact)
    requires Covers(nodes, running, local, rows) && Genuine(nodes, c) && |nodes.Keys - running| < K
    ensures Covers(nodes, running, local, Apply(local, rows, Op.Update(c)))
  {
    assert TableOk(local, rows) && Safe(local, rows, Op.Update(c));
    hide *;
    var after := Apply(local, rows, Op.Update(c));
    ApplyKeepsTable(local, rows, Op.Update(c));
    forall i | 0 <= i < NUM_BUCKETS
      ensures forall x :: x in after[i] ==> Genuine(nodes, x)
      ensures NamesRunning(running, rows[i]) ==> NamesRunning(running, after[i])
    {
      UpdateKeepsBucketGenuine(nodes, running, local, rows, c, i);
    }
    BucketsKeepCovers(nodes, running, local, rows, after);
  }

  lemma CoversRows(nodes: Nodes, running: set<Id>, local: Id, rows: Rows)
    requires Covers(nodes, running, local, rows)
    ensures |rows| == NUM_BUCKETS
  {
  }

  lemma {:induction false} UpdatesKeepCovers(nodes: Nodes, running: set<Id>, local: Id, rows: Rows, cs: seq<Contact>,
                                             n: nat)
    requires Covers(nodes, running, local, rows) && |nodes.Keys - running| < K
    requires n <= |cs| && forall c :: c in cs ==> Genuine(nodes, c)
    ensures Covers(nodes, running, local, RoutingTables.Run(local, rows, Updates(cs[..n])))
  {
    hide *;
    CoversRows(nodes, running, local, rows);
    if n == 0 {
      UpdatesNone(local, rows);
    } else {
      var m := n - 1;
      assert cs[..n] == cs[..m] + [cs[m]];
      UpdatesKeepCovers(nodes, running, local, rows, cs, m);
      UpdatesLast(local, rows, cs[..m], cs[m]);
      UpdateKeepsCovers(nodes, running, local, RoutingTables.Run(local, rows, Updates(cs[..m])), cs[m]);
    }
  }

  ghost predicate FewSilent(cl: Cluster) {
    |cl.nodes.Keys - cl.running| < K
  }

  /** A node lookup keeps the routing condition of the searching node. */
  lemma NodeLookupKeepsCovers(cl: Cluster, me: Id, rows: Rows, target: Id, now: nat, keep: Contact -> bool,
                              learned: seq<Contact>)
    requires WellConnected(cl) && FewSilent(cl) && Covers(cl.nodes, cl.running, me, rows)
    requires Taught(NodeNetwork(cl, target, now), keep, learned)
    ensures Covers(cl.nodes, cl.running, me, RoutingTables.Run(me, rows, Updates(learned)))
  {
    assert |cl.nodes.Keys - cl.running| < K;
    hide *;
    CoversRows(cl.nodes, cl.running, me, rows);
    NodeNetworkResponsive(cl, target, now);
    TaughtFromNetwork(cl.nodes, cl.running, NodeNetwork(cl, target, now), keep, learned);
    UpdatesKeepCovers(cl.nodes, cl.running, me, rows, learned, |learned|);
    assert learned[..|learned|] == learned;
  }

  /** So does a value lookup. */
  lemma ValueLookupKeepsCovers<E(!new)>(cl: Cluster, json: Json<E>, stored: map<Id, seq<byte>>, me: Id, rows: Rows,
                                        key: Id, now: nat, keep: Contact -> bool, learned: seq<Contact>)
    requires WellConnected(cl) && FewSilent(cl) && Covers(cl.nodes, cl.running, me, rows)
    requires Taught(ValueNetwork(cl, json, stored, key, now), keep, learned)
    ensures Covers(cl.nodes, cl.running, me, RoutingTables.Run(me, rows, Updates(learned)))
  {
    assert |cl.nodes.Keys - cl.running| < K;
    hide *;
    CoversRows(cl.nodes, cl.running, me, rows);
    ValueRepliesGenuine(cl, json, stored, key, now);
    TaughtFromNetwork(cl.nodes, cl.running, ValueNetwork(cl, json, stored, key, now), keep, learned);
    UpdatesKeepCovers(cl.nodes, cl.running, me, rows, learned, |learned|);
    assert learned[..|learned|] == learned;
  }
}
