/**
 A whole network (nodex-kademlia/src/lib.rs): nodes that answer FIND_NODE and FIND_VALUE from
 their routing tables and stores, through the wire codec, and what a lookup achieves on it.
 Calls travel by address; some nodes are not running, and the tables of those that are may
 change from one call to the next.
 */
module Networks {
  import opened Bytes
  import opened NodeIds
  import opened Contacts
  import opened Sorting
  import opened RoutingTables
  import opened Lookup
  import opened Mailbox
  import opened Sets
  import Rpc

  type Nodes = map<Id, SocketAddr>

  /**
   Where every node is, which are running, who listens where, and what a node's table is when it
   answers in a given round.
   */
  datatype Cluster = Cluster(nodes: Nodes, running: set<Id>, directory: map<SocketAddr, Id>, tables: (nat, Id) -> Rows)

  /** A contact that names a node of the network at its real address. */
  ghost predicate Genuine(nodes: Nodes, c: Contact) {
    c.id in nodes && c.addr == nodes[c.id]
  }

  ghost predicate NamesRunning(running: set<Id>, cs: seq<Contact>) {
    exists c :: c in cs && c.id in running
  }

  ghost function Silent(running: set<Id>, cs: seq<Contact>): set<Contact> {
    set c | c in cs && c.id !in running
  }

  /**
   The routing condition: a node's bucket names some running node whenever any running node
   belongs into it, and fewer than K of all its contacts are not running.
   */
  ghost predicate Covers(nodes: Nodes, running: set<Id>, local: Id, rows: Rows) {
    && TableOk(local, rows)
    && (forall c :: c in ContactsOf(rows) ==> Genuine(nodes, c))
    && (forall n :: n in running && n != local ==> NamesRunning(running, rows[BucketIndex(local, n)]))
    && |Silent(running, ContactsOf(rows))| < K
  }

  /** Addresses are distinct and routable, and every running node always meets the routing condition. */
  ghost predicate WellConnected(cl: Cluster) {
    && cl.running <= cl.nodes.Keys
    && (forall n :: n in cl.nodes ==> cl.nodes[n] in cl.directory && cl.directory[cl.nodes[n]] == n)
    && (forall a :: a in cl.directory ==> cl.directory[a] in cl.nodes)
    && (forall n :: n in cl.nodes ==> Rpc.Routable(cl.nodes[n]))
    && (forall h: nat, n :: n in cl.running ==> Covers(cl.nodes, cl.running, n, cl.tables(h, n)))
  }

  ghost predicate IsClosestNode(running: set<Id>, target: Id, c: Id) {
    c in running && forall n :: n in running ==> Dist(c, target) <= Dist(n, target)
  }

  lemma {:induction false} ClosestNodeExists(running: set<Id>, target: Id)
    requires running != {}
    ensures exists c :: IsClosestNode(running, target, c)
  {
    hide Dist;
    var n :| n in running;
    var rest := running - {n};
    assert forall m :: m in running <==> m == n || m in rest;
    if rest == {} {
      assert IsClosestNode(running, target, n);
    } else {
      ClosestNodeExists(rest, target);
      var c :| IsClosestNode(rest, target, c);
      var best := if Dist(n, target) <= Dist(c, target) then n else c;
      forall m | m in running ensures Dist(best, target) <= Dist(m, target) {
        assert m == n || Dist(c, target) <= Dist(m, target);
      }
      assert IsClosestNode(running, target, best);
    }
  }

  // ----- the routing condition can be met -----

  /** Every bucket that needs a contact has one. */
  ghost function OneEach(nodes: Nodes, running: set<Id>, local: Id): (r: Rows)
    requires running <= nodes.Keys
    ensures |r| == NUM_BUCKETS
  {
    seq(NUM_BUCKETS, i requires 0 <= i < NUM_BUCKETS =>
      if n :| n in running && n != local && BucketIndex(local, n) == i then [Contact(n, nodes[n], 0)] else [])
  }

  lemma OneEachCovers(nodes: Nodes, running: set<Id>, local: Id)
    requires running <= nodes.Keys
    ensures Covers(nodes, running, local, OneEach(nodes, running, local))
  {
    hide BucketIndex, ContactsOf;
    var rows := OneEach(nodes, running, local);
    forall x | x in ContactsOf(rows) ensures Genuine(nodes, x) && x.id in running {
      ContactsOfMembers(rows, x);
    }
    assert Silent(running, ContactsOf(rows)) == {};
    forall n | n in running && n != local ensures NamesRunning(running, rows[BucketIndex(local, n)]) {
      assert rows[BucketIndex(local, n)][0] in rows[BucketIndex(local, n)];
    }
  }

  /**
   Any finite set of nodes with distinct, routable addresses, any of them running, can be
   connected so that the routing condition holds, with at most one contact in each bucket.
   */
  lemma AnyNodesWellConnected(nodes: Nodes, running: set<Id>) returns (cl: Cluster)
    requires running <= nodes.Keys
    requires forall m, n :: m in nodes && n in nodes && nodes[m] == nodes[n] ==> m == n
    requires forall n :: n in nodes ==> Rpc.Routable(nodes[n])
    ensures cl.nodes == nodes && cl.running == running && WellConnected(cl)
  {
    hide Covers, OneEach, Rpc.Routable;
    cl := Cluster(nodes, running, Listeners(nodes), (h: nat, n: Id) => OneEach(nodes, running, n));
    forall h: nat, n | n in running ensures Covers(nodes, running, n, cl.tables(h, n)) {
      OneEachCovers(nodes, running, n);
    }
  }

  /** Who listens at each address. */
  ghost function Listeners(nodes: Nodes): (d: map<SocketAddr, Id>)
    requires forall m, n :: m in nodes && n in nodes && nodes[m] == nodes[n] ==> m == n
    ensures forall n :: n in nodes ==> nodes[n] in d && d[nodes[n]] == n
    ensures forall a :: a in d ==> d[a] in nodes
  {
    map a | a in nodes.Values :: AtAddress(nodes, a)
  }

  ghost function AtAddress(nodes: Nodes, a: SocketAddr): (n: Id)
    requires a in nodes.Values
    ensures n in nodes && nodes[n] == a
  {
    var n :| n in nodes && nodes[n] == a;
    n
  }

  // ----- replies -----

  /** FIND_NODE: the K closest contacts of the node that answers in round `h`. */
  function ClosestKnown(cl: Cluster, h: nat, at: Id, target: Id): seq<Contact> {
    Closest(ContactsOf(cl.tables(h, at)), target, K)
  }

  /** What arrives of a reply sent at one end: nothing if either end refuses it. */
  function OverWire(sender: Id, reply: Rpc.RpcPayload, now: nat): Option<Rpc.RpcPayload> {
    match Rpc.Encoded(Rpc.RpcMessage(0, sender, reply))
    case Err => None
    case Ok(bytes) =>
      match Rpc.Decoded(bytes, now)
      case Err => None
      case Ok(m) => Some(m.payload)
  }

  /** A list of routable contacts arrives as it was sent, but for its time stamps. */
  lemma ContactsOverWire(sender: Id, cs: seq<Contact>, now: nat)
    requires |cs| <= K && Rpc.AllRoutable(cs)
    ensures OverWire(sender, Rpc.FindNodeResp(cs), now) == Some(Rpc.FindNodeResp(Rpc.Stamped(cs, now)))
    ensures OverWire(sender, Rpc.FindValueResp(None, cs), now) == Some(Rpc.FindValueResp(None, Rpc.Stamped(cs, now)))
  {
    hide Rpc.Encoded, Rpc.Decoded, Rpc.AllRoutable, Rpc.Stamped;
    var m, v := Rpc.RpcMessage(0, sender, Rpc.FindNodeResp(cs)), Rpc.RpcMessage(0, sender, Rpc.FindValueResp(None, cs));
    Rpc.EncodableExactly(m);
    Rpc.EncodableExactly(v);
    Rpc.RoundTrip(m, [], now);
    Rpc.RoundTrip(v, [], now);
    assert Rpc.Encoded(m).value + [] == Rpc.Encoded(m).value && Rpc.Encoded(v).value + [] == Rpc.Encoded(v).value;
    assert cs[..|cs|] == cs;
  }

  /** A value arrives exactly if it is not too large for a message. */
  lemma ValueOverWire(sender: Id, value: seq<byte>, now: nat)
    ensures OverWire(sender, Rpc.FindValueResp(Some(value), []), now)
            == if |value| <= MAX_VALUE_SIZE then Some(Rpc.FindValueResp(Some(value), [])) else None
  {
    hide Rpc.Encoded, Rpc.Decoded;
    var m := Rpc.RpcMessage(0, sender, Rpc.FindValueResp(Some(value), []));
    Rpc.EncodableExactly(m);
    if |value| <= MAX_VALUE_SIZE {
      Rpc.RoundTrip(m, [], now);
      assert Rpc.Encoded(m).value + [] == Rpc.Encoded(m).value;
      assert Rpc.Stamped([], now) == [];
    }
  }

  /** Who answers calls to an address. */
  function Listener(cl: Cluster, addr: SocketAddr): Option<Id> {
    if addr in cl.directory && cl.directory[addr] in cl.running then Some(cl.directory[addr]) else None
  }

  /** What a lookup of nodes meets on the network: nobody listens, or the listener answers. */
  function NodeNetwork(cl: Cluster, target: Id, now: nat): Network {
    (hop: nat, c: Contact) =>
      match Listener(cl, c.addr)
      case None => CallError
      case Some(at) =>
        match OverWire(at, Rpc.FindNodeResp(ClosestKnown(cl, hop, at, target)), now)
        case Some(FindNodeResp(cs)) => ContactsReply(cs)
        case _ => CallError
  }

  /** The value a FIND_VALUE reply carries: an oversized mailbox is repaired first. */
  function Repaired<E(==,!new)>(json: Json<E>, value: seq<byte>): seq<byte> {
    var bounded := Merged(json, None, value).0;
    if |bounded| < |value| then bounded else value
  }

  /** FIND_VALUE: the stored value if there is one, else contacts as for FIND_NODE. */
  function ValueNetwork<E(==,!new)>(cl: Cluster, json: Json<E>, stored: map<Id, seq<byte>>, key: Id,
                                    now: nat): Network {
    (hop: nat, c: Contact) =>
      match Listener(cl, c.addr)
      case None => CallError
      case Some(at) =>
        if at in stored then
          match OverWire(at, Rpc.FindValueResp(Some(Repaired(json, stored[at])), []), now)
          case Some(FindValueResp(Some(v), _)) => ValueReply(v)
          case _ => CallError
        else
          match OverWire(at, Rpc.FindValueResp(None, ClosestKnown(cl, hop, at, key)), now)
          case Some(FindValueResp(None, cs)) => ContactsReply(cs)
          case _ => CallError
  }

  /** Whatever is stored, what is answered is not too large to be sent. */
  lemma RepairedFits<E(!new)>(json: Json<E>, v: seq<byte>)
    requires json.Lawful()
    ensures |Repaired(json, v)| <= 65536
  {
    hide Combine, SumSizes;
    if json.parse(v).Some? {
      var all := Combine(json.size, [], json.parse(v).value);
      assert |json.render(all[Excess(json.size, all)..])| <= MAX_MAILBOX_VALUE_BYTES;
    }
  }

  // ----- convergence -----

  /** Replies name nodes of the network only, at their real addresses. */
  ghost predicate RepliesGenuine(nodes: Nodes, net: Network) {
    forall h: nat, x: Contact :: net(h, x).ContactsReply? ==> forall c :: c in net(h, x).contacts ==> Genuine(nodes, c)
  }

  /** Of the nodes asked, exactly the running ones answer: with a value or with their closest contacts. */
  ghost predicate Responsive(cl: Cluster, target: Id, net: Network, values: bool) {
    && (forall h: nat, x: Contact :: net(h, x) != Panic)
    && RepliesGenuine(cl.nodes, net)
    && (forall h: nat, x: Contact :: Genuine(cl.nodes, x) && x.id !in cl.running ==> net(h, x) == CallError)
    && (forall h: nat, x: Contact :: Genuine(cl.nodes, x) && x.id in cl.running ==>
          (values && net(h, x).ValueReply?)
          || (net(h, x).ContactsReply? && SameContacts(net(h, x).contacts, ClosestKnown(cl, h, x.id, target))))
  }

  /** Equal but for the time stamps. */
  ghost predicate SameContacts(cs: seq<Contact>, ds: seq<Contact>) {
    |cs| == |ds| && forall i :: 0 <= i < |cs| ==> cs[i].id == ds[i].id && cs[i].addr == ds[i].addr
  }

  lemma ClosestFull(cs: seq<Contact>, target: Id, x: Contact)
    requires x in cs && x !in Closest(cs, target, K)
    ensures |Closest(cs, target, K)| == K
  {
    SortMembers(DistKey(target), cs);
  }

  /** As fewer than K contacts are silent, a list of closest contacts is not exhausted by them. */
  lemma RunningIsNamed(nodes: Nodes, running: set<Id>, local: Id, rows: Rows, target: Id, x: Contact)
    returns (c: Contact)
    requires Covers(nodes, running, local, rows) && x in ContactsOf(rows) && x.id in running
    ensures c in Closest(ContactsOf(rows), target, K) && c in ContactsOf(rows)
    ensures c.id in running && Dist(c.id, target) <= Dist(x.id, target)
  {
    hide Dist, BucketIndex, Closest, ContactsOf, TableOk;
    var cs, r := ContactsOf(rows), Closest(ContactsOf(rows), target, K);
    TableContactsDistinct(local, rows);
    ClosestIsNearest(cs, target, K);
    if x in r {
      return x;
    }
    ClosestFull(cs, target, x);
    NotAllSilent(running, cs, target, r);
    c :| c in r && c.id in running;
  }

  lemma NotAllSilent(running: set<Id>, cs: seq<Contact>, target: Id, r: seq<Contact>)
    requires IsNearest(cs, target, K, r) && |r| == K && |Silent(running, cs)| < K
    ensures NamesRunning(running, r)
  {
    hide Dist;
    if !NamesRunning(running, r) {
      forall i, j | 0 <= i < j < |r| ensures r[i] != r[j] {
        assert DistKey(target)(r[i]) < DistKey(target)(r[j]);
      }
      DistinctSize(r);
      SubsetSize((set c | c in r), Silent(running, cs));
    }
  }

  /** A running node that is not the closest one knows, and therefore names, a closer running one. */
  lemma NamesACloserNode(cl: Cluster, h: nat, n: Id, target: Id, c: Id) returns (closer: Contact)
    requires WellConnected(cl) && n in cl.running && c in cl.running
    requires Dist(c, target) < Dist(n, target)
    ensures closer in ClosestKnown(cl, h, n, target) && Genuine(cl.nodes, closer)
    ensures closer.id in cl.running && Dist(closer.id, target) < Dist(n, target)
  {
    hide Dist, ContactsOf, Closest, SharedPrefix;
    var rows := cl.tables(h, n);
    assert Covers(cl.nodes, cl.running, n, rows);
    var i := BucketIndex(n, c);
    var x: Contact :| x in rows[i] && x.id in cl.running;
    ContactsOfMembers(rows, x);
    SamePrefix(n, x.id, c);
    SameBucketIsCloser(n, x.id, c, target);
    closer := RunningIsNamed(cl.nodes, cl.running, n, rows, target, x);
  }

  lemma SamePrefix(local: Id, x: Id, c: Id)
    requires x != local && c != local && BucketIndex(local, x) == BucketIndex(local, c)
    ensures SharedPrefix(local, x) == SharedPrefix(local, c)
  {
    hide SharedPrefix;
    PrefixFull(local, x);
    PrefixFull(local, c);
  }

  /** On such a network everything a lookup hears of is genuine; who runs has not failed, and only who runs answered. */
  lemma RunningExactly(cl: Cluster, target: Id, net: Network, values: bool, keep: Contact -> bool, noValue: bool,
                       initial: seq<Contact>, ids: set<Id>, c: Candidate)
    requires Responsive(cl, target, net, values)
    requires Heard(net, initial, c.contact) && forall x :: x in initial ==> Genuine(cl.nodes, x)
    requires Justified(net, keep, noValue, ids, c)
    ensures Genuine(cl.nodes, c.contact)
    ensures c.contact.id in cl.running ==> c.state == Unqueried || c.state == Queried
    ensures c.state == Queried ==> c.contact.id in cl.running
  {
    hide ClosestKnown;
  }

  /** The first candidate that has not failed. */
  lemma FirstLeft(sl: seq<Candidate>, id: Id) returns (i: nat)
    requires exists c :: c in sl && c.contact.id == id && c.state != CandidateState.Failed
    ensures FirstNonFailed(sl, i)
  {
    i := 0;
    var c: Candidate :| c in sl && c.contact.id == id && c.state != CandidateState.Failed;
    var k :| 0 <= k < |sl| && sl[k] == c;
    while sl[i].state == CandidateState.Failed
      invariant i <= k && forall j :: 0 <= j < i ==> sl[j].state == CandidateState.Failed
      decreases k - i
    {
      i := i + 1;
    }
  }

  ghost predicate FirstNonFailed(sl: seq<Candidate>, i: nat) {
    i < |sl| && sl[i].state != CandidateState.Failed
    && forall j :: 0 <= j < i ==> sl[j].state == CandidateState.Failed
  }

  /** If no task panicked, the first candidate that has not failed has answered. */
  lemma FirstHasAnswered(me: Id, target: Id, net: Network, keep: Contact -> bool, noValue: bool,
                         initial: seq<Contact>, final: seq<Candidate>, i: nat)
    requires Finished(me, target, net, keep, noValue, initial, final) && FirstNonFailed(final, i)
    requires forall h, x :: net(h, x) != Panic
    ensures final[i].state == Queried
  {
    hide WellFormed, StrictlySorted, Heard, Ids;
    assert final[i] in final;
    assert Justified(net, keep, noValue, Ids(final), final[i]);
    if final[i].state == Unqueried {
      assert StopCondition(final);
      AnsweredInTop(final, i);
    }
  }

  /** The stop condition wants an answer among the first K, so whoever has not failed is among them. */
  lemma AnsweredInTop(final: seq<Candidate>, i: nat)
    requires StopCondition(final) && FirstNonFailed(final, i)
    ensures Settled(final[i])
  {
    var top := if |final| <= K then final else final[..K];
    var c: Candidate :| c in top && c.state == Queried;
    var m :| 0 <= m < |top| && top[m] == c;
    assert i <= m && top[i] == final[i] && top[i] in top;
  }

  lemma FirstIsClosest(me: Id, target: Id, final: seq<Candidate>, i: nat, id: Id)
    requires WellFormed(me, target, final) && StrictlySorted(CandidateKey(), final) && FirstNonFailed(final, i)
    requires exists c :: c in final && c.contact.id == id && c.state != CandidateState.Failed
    ensures Dist(final[i].contact.id, target) <= Dist(id, target)
  {
    var c: Candidate :| c in final && c.contact.id == id && c.state != CandidateState.Failed;
    var k :| 0 <= k < |final| && final[k] == c;
    assert final[i] in final && i <= k;
  }

  /**
   Convergence: if the closest running node is not the searching node itself, it has answered,
   and every candidate before it has failed.
   */
  lemma LookupReachesClosest(cl: Cluster, me: Id, target: Id, net: Network, values: bool, keep: Contact -> bool,
                             noValue: bool, initial: seq<Contact>, final: seq<Candidate>, best: Id)
    returns (i: nat)
    requires WellConnected(cl) && me in cl.running && Responsive(cl, target, net, values)
    requires values ==> noValue
    requires forall x :: Genuine(cl.nodes, x) && x.id != me ==> keep(x)
    requires forall x :: x in initial <==> x in ClosestKnown(cl, 0, me, target)
    requires Finished(me, target, net, keep, noValue, initial, final)
    requires IsClosestNode(cl.running, target, best) && best != me
    ensures FirstNonFailed(final, i) && final[i].contact.id == best && Genuine(cl.nodes, final[i].contact)
    ensures final[i].state == Queried
    ensures exists h: nat :: AnsweredWithin(net(h, final[i].contact), keep, noValue, Ids(final))
  {
    hide Dist, ClosestKnown, Distance, FromBE, Covers, Heard, Justified;
    Closer(target, best, me);
    KnownAreGenuine(cl, 0, me, target);
    var near := NamesACloserNode(cl, 0, me, target, best);
    assert near in initial;
    RunningIsLeft(cl, target, net, values, keep, noValue, initial, final, near.id);
    i := FirstLeft(final, near.id);
    FirstIsClosest(me, target, final, i, near.id);
    FirstHasAnswered(me, target, net, keep, noValue, initial, final, i);
    var first := final[i];
    assert first in final;
    RunningExactly(cl, target, net, values, keep, noValue, initial, Ids(final), first);
    QueriedAnswered(net, keep, noValue, Ids(final), first);
    if first.contact.id != best {
      Closer(target, best, first.contact.id);
      var closer := NamedInReply(cl, me, target, net, values, keep, noValue, final, first, best);
      RunningIsLeft(cl, target, net, values, keep, noValue, initial, final, closer);
      FirstIsClosest(me, target, final, i, closer);
      assert false;
    }
  }

  /** A running node on the shortlist has not failed. */
  lemma RunningIsLeft(cl: Cluster, target: Id, net: Network, values: bool, keep: Contact -> bool, noValue: bool,
                      initial: seq<Contact>, final: seq<Candidate>, id: Id)
    requires Responsive(cl, target, net, values) && forall x :: x in initial ==> Genuine(cl.nodes, x)
    requires AllJustified(net, keep, noValue, final) && forall c :: c in final ==> Heard(net, initial, c.contact)
    requires id in Ids(final) && id in cl.running
    ensures exists c :: c in final && c.contact.id == id && c.state != CandidateState.Failed
  {
    hide Responsive, Heard, Justified;
    var c: Candidate :| c in final && c.contact.id == id;
    RunningExactly(cl, target, net, values, keep, noValue, initial, Ids(final), c);
  }

  lemma QueriedAnswered(net: Network, keep: Contact -> bool, noValue: bool, ids: set<Id>, c: Candidate)
    requires Justified(net, keep, noValue, ids, c) && c.state == Queried
    ensures exists h: nat :: AnsweredWithin(net(h, c.contact), keep, noValue, ids)
  {
  }

  lemma KnownAreGenuine(cl: Cluster, h: nat, n: Id, target: Id)
    requires WellConnected(cl) && n in cl.running
    ensures forall x :: x in ClosestKnown(cl, h, n, target) ==> Genuine(cl.nodes, x) && x.id != n
  {
    hide Dist, BucketIndex, ContactsOf, Closest;
    var rows := cl.tables(h, n);
    assert Covers(cl.nodes, cl.running, n, rows);
    ContactsOfDistinct(n, rows);
    ClosestIsNearest(ContactsOf(rows), target, K);
  }

  lemma Closer(target: Id, best: Id, n: Id)
    requires Dist(best, target) <= Dist(n, target) && best != n
    ensures Dist(best, target) < Dist(n, target)
  {
    hide Dist;
    if Dist(best, target) == Dist(n, target) {
      DistInjective(best, n, target);
    }
  }

  /** The reply of a candidate that is not the closest node put a closer running one on the shortlist. */
  lemma NamedInReply(cl: Cluster, me: Id, target: Id, net: Network, values: bool, keep: Contact -> bool, noValue: bool,
                     final: seq<Candidate>, first: Candidate, best: Id)
    returns (closer: Id)
    requires WellConnected(cl) && me in cl.nodes && Responsive(cl, target, net, values)
    requires values ==> noValue
    requires forall x :: Genuine(cl.nodes, x) && x.id != me ==> keep(x)
    requires Genuine(cl.nodes, first.contact) && first.contact.id in cl.running && best in cl.running
    requires exists h: nat :: AnsweredWithin(net(h, first.contact), keep, noValue, Ids(final))
    requires Dist(best, target) < Dist(first.contact.id, target) < Dist(me, target)
    ensures closer in Ids(final) && closer in cl.running && Dist(closer, target) < Dist(first.contact.id, target)
  {
    hide Dist, ClosestKnown, Covers;
    var h: nat :| AnsweredWithin(net(h, first.contact), keep, noValue, Ids(final));
    var named := NamesACloserNode(cl, h, first.contact.id, target, best);
    var known, cs := ClosestKnown(cl, h, first.contact.id, target), net(h, first.contact).contacts;
    var i :| 0 <= i < |known| && known[i] == named;
    assert cs[i] in cs && cs[i].id == named.id && named.id != me;
    assert Genuine(cl.nodes, cs[i]) && keep(cs[i]);
    closer := named.id;
  }

  /** What a node knows of such a network is sent and received without loss. */
  lemma KnownOverWire(cl: Cluster, h: nat, n: Id, target: Id, now: nat) returns (cs: seq<Contact>)
    requires WellConnected(cl) && n in cl.running
    ensures var known := ClosestKnown(cl, h, n, target);
            && OverWire(n, Rpc.FindNodeResp(known), now) == Some(Rpc.FindNodeResp(cs))
            && OverWire(n, Rpc.FindValueResp(None, known), now) == Some(Rpc.FindValueResp(None, cs))
            && SameContacts(cs, known)
    ensures forall c :: c in cs ==> Genuine(cl.nodes, c)
  {
    hide ClosestKnown, Covers, OverWire, Rpc.Routable;
    var known := ClosestKnown(cl, h, n, target);
    KnownAreGenuine(cl, h, n, target);
    AtMostK(cl, h, n, target);
    ContactsOverWire(n, known, now);
    cs := Rpc.Stamped(known, now);
  }

  lemma AtMostK(cl: Cluster, h: nat, n: Id, target: Id)
    ensures |ClosestKnown(cl, h, n, target)| <= K
  {
  }

  /** A genuine contact is answered by the node it names, if that is running. */
  lemma AtItsAddress(cl: Cluster, c: Contact)
    requires WellConnected(cl) && Genuine(cl.nodes, c)
    ensures Listener(cl, c.addr) == if c.id in cl.running then Some(c.id) else None
    ensures forall n :: n in cl.nodes && n != c.id ==> cl.nodes[n] != c.addr
  {
    hide Covers;
  }

  lemma NodeNetworkResponsive(cl: Cluster, target: Id, now: nat)
    requires WellConnected(cl)
    ensures Responsive(cl, target, NodeNetwork(cl, target, now), false)
  {
    hide ClosestKnown, WellConnected, OverWire, SameContacts, Genuine;
    var net := NodeNetwork(cl, target, now);
    forall h: nat, x: Contact | Listener(cl, x.addr).Some?
      ensures net(h, x).ContactsReply?
           && SameContacts(net(h, x).contacts, ClosestKnown(cl, h, Listener(cl, x.addr).value, target))
      ensures forall c :: c in net(h, x).contacts ==> Genuine(cl.nodes, c)
    {
      var cs := KnownOverWire(cl, h, Listener(cl, x.addr).value, target, now);
    }
    forall x: Contact | Genuine(cl.nodes, x)
      ensures Listener(cl, x.addr) == if x.id in cl.running then Some(x.id) else None
    {
      AtItsAddress(cl, x);
    }
  }

  /** Whatever is stored, a FIND_VALUE reply names nodes of the network only. */
  lemma ValueRepliesGenuine<E(!new)>(cl: Cluster, json: Json<E>, stored: map<Id, seq<byte>>, key: Id, now: nat)
    requires WellConnected(cl)
    ensures RepliesGenuine(cl.nodes, ValueNetwork(cl, json, stored, key, now))
  {
    hide ClosestKnown, WellConnected, Repaired, OverWire, SameContacts, Genuine;
    var net := ValueNetwork(cl, json, stored, key, now);
    forall h: nat, x: Contact | net(h, x).ContactsReply?
      ensures forall c :: c in net(h, x).contacts ==> Genuine(cl.nodes, c)
    {
      var at := Listener(cl, x.addr).value;
      if at !in stored {
        var cs := KnownOverWire(cl, h, at, key, now);
      }
    }
  }

  lemma ValueNetworkResponsive<E(!new)>(cl: Cluster, json: Json<E>, stored: map<Id, seq<byte>>, key: Id, now: nat)
    requires WellConnected(cl) && json.Lawful()
    ensures Responsive(cl, key, ValueNetwork(cl, json, stored, key, now), true)
  {
    hide ClosestKnown, WellConnected, Repaired, OverWire, SameContacts, Genuine;
    var net := ValueNetwork(cl, json, stored, key, now);
    forall h: nat, x: Contact | Listener(cl, x.addr).Some?
      ensures net(h, x).ValueReply?
              || (net(h, x).ContactsReply?
                && SameContacts(net(h, x).contacts, ClosestKnown(cl, h, Listener(cl, x.addr).value, key)))
      ensures net(h, x).ContactsReply? ==> forall c :: c in net(h, x).contacts ==> Genuine(cl.nodes, c)
    {
      var at := Listener(cl, x.addr).value;
      if at in stored {
        RepairedFits(json, stored[at]);
        ValueOverWire(at, Repaired(json, stored[at]), now);
      } else {
        var cs := KnownOverWire(cl, h, at, key, now);
      }
    }
    forall x: Contact | Genuine(cl.nodes, x)
      ensures Listener(cl, x.addr) == if x.id in cl.running then Some(x.id) else None
    {
      AtItsAddress(cl, x);
    }
  }

  /** On a well-connected network nothing a node knows is filtered out. */
  lemma NothingFiltered(cl: Cluster, me: Id, target: Id)
    requires WellConnected(cl) && me in cl.running
    ensures forall x :: Genuine(cl.nodes, x) && x.id != me ==> NotSelf(me, cl.nodes[me])(x) && NotLocalId(me)(x)
    ensures forall x :: x in Kept(ClosestKnown(cl, 0, me, target), NotSelf(me, cl.nodes[me]))
                    <==> x in ClosestKnown(cl, 0, me, target)
  {
    hide ClosestKnown, Covers;
    KnownAreGenuine(cl, 0, me, target);
    forall x | Genuine(cl.nodes, x) && x.id != me ensures x.addr != cl.nodes[me] {
      assert cl.directory[cl.nodes[x.id]] == x.id && cl.directory[cl.nodes[me]] == me;
    }
  }

  lemma TableIsOk(cl: Cluster, n: Id)
    requires WellConnected(cl) && n in cl.running
    ensures TableOk(n, cl.tables(0, n)) && n in cl.nodes && Covers(cl.nodes, cl.running, n, cl.tables(0, n))
    ensures forall t :: ClosestKnown(cl, 0, n, t) == Closest(ContactsOf(cl.tables(0, n)), t, K)
  {
  }

  /** The closest running node is the searching node or heads the result of its lookup. */
  lemma ClosestIsAmong(cl: Cluster, me: Id, target: Id, now: nat, final: seq<Candidate>, best: Id)
    requires WellConnected(cl) && me in cl.running
    requires var keep := NotSelf(me, cl.nodes[me]);
             Finished(me, target, NodeNetwork(cl, target, now), keep, false,
                      Kept(ClosestKnown(cl, 0, me, target), keep), final)
    requires IsClosestNode(cl.running, target, best) && best != me
    ensures Answer(final) != [] && Answer(final)[0].id == best && Genuine(cl.nodes, Answer(final)[0])
  {
    assert me in cl.nodes;
    hide WellConnected, Genuine, IsClosestNode, ClosestKnown, Invariant, Responsive;
    var keep := NotSelf(me, cl.nodes[me]);
    NothingFiltered(cl, me, target);
    NodeNetworkResponsive(cl, target, now);
    var i := LookupReachesClosest(cl, me, target, NodeNetwork(cl, target, now), false, keep, false,
                                  Kept(ClosestKnown(cl, 0, me, target), keep), final, best);
    FirstHeads(final, i);
  }

  lemma {:induction false} FirstHeads(sl: seq<Candidate>, i: nat)
    requires FirstNonFailed(sl, i)
    ensures NonFailed(sl) != [] && NonFailed(sl)[0] == sl[i].contact
  {
    var init := sl[..|sl| - 1];
    if i < |init| {
      FirstHeads(init, i);
    } else {
      AllFailed(init);
    }
  }

  lemma {:induction false} AllFailed(sl: seq<Candidate>)
    requires forall j :: 0 <= j < |sl| ==> sl[j].state == CandidateState.Failed
    ensures NonFailed(sl) == []
  {
    if sl != [] {
      AllFailed(sl[..|sl| - 1]);
    }
  }

  /** The contacts name different nodes of the network, none of them `me`. */
  ghost predicate OtherNodes(cl: Cluster, me: Id, cs: seq<Contact>) {
    DistinctIds(cs) && forall c :: c in cs ==> Genuine(cl.nodes, c) && c.id != me
  }

  lemma AnswersAreOtherNodes(cl: Cluster, me: Id, target: Id, now: nat, final: seq<Candidate>)
    requires WellConnected(cl) && me in cl.running
    requires var keep := NotSelf(me, cl.nodes[me]);
             Finished(me, target, NodeNetwork(cl, target, now), keep, false,
                      Kept(ClosestKnown(cl, 0, me, target), keep), final)
    ensures OtherNodes(cl, me, Answer(final))
  {
    assert me in cl.nodes;
    hide WellConnected, Genuine, ClosestKnown, Finished, Answer, Dist, Kept;
    var keep, r := NotSelf(me, cl.nodes[me]), Answer(final);
    var initial := Kept(ClosestKnown(cl, 0, me, target), keep);
    AnswerIsNearest(me, target, NodeNetwork(cl, target, now), keep, false, initial, final);
    KnownAreGenuine(cl, 0, me, target);
    NodeNetworkResponsive(cl, target, now);
    forall i, j | 0 <= i < j < |r| ensures r[i].id != r[j].id {
      assert DistKey(target)(r[i]) < DistKey(target)(r[j]);
    }
  }

  /** A running node that holds a value answers with it. */
  lemma HolderAnswers<E(!new)>(cl: Cluster, json: Json<E>, key: Id, now: nat, snapshot: map<Id, seq<byte>>, c: Contact,
                               h: nat)
    requires WellConnected(cl) && json.Lawful()
    requires Genuine(cl.nodes, c) && c.id in cl.running && c.id in snapshot
    ensures ValueNetwork(cl, json, snapshot, key, now)(h, c).ValueReply?
  {
    hide WellConnected, ClosestKnown, Repaired, OverWire, Genuine;
    AtItsAddress(cl, c);
    RepairedFits(json, snapshot[c.id]);
    ValueOverWire(c.id, Repaired(json, snapshot[c.id]), now);
  }

  /** A value lookup that ends without a value has asked the closest running node, which has none. */
  lemma NotHeldByClosest<E(!new)>(cl: Cluster, json: Json<E>, me: Id, key: Id, now: nat, snapshot: map<Id, seq<byte>>,
                                  final: seq<Candidate>, best: Id)
    requires WellConnected(cl) && me in cl.running && json.Lawful()
    requires Finished(me, key, ValueNetwork(cl, json, snapshot, key, now), NotLocalId(me), true,
                      Kept(ClosestKnown(cl, 0, me, key), NotSelf(me, cl.nodes[me])), final)
    requires IsClosestNode(cl.running, key, best) && best != me
    ensures best !in snapshot
  {
    assert me in cl.nodes && best in cl.running;
    hide WellConnected, IsClosestNode, ClosestKnown, Finished, Responsive, Json.Lawful, Genuine, Kept, ValueNetwork,
      Ids, FirstNonFailed;
    var net := ValueNetwork(cl, json, snapshot, key, now);
    NothingFiltered(cl, me, key);
    ValueNetworkResponsive(cl, json, snapshot, key, now);
    var i := LookupReachesClosest(cl, me, key, net, true, NotLocalId(me), true,
                                  Kept(ClosestKnown(cl, 0, me, key), NotSelf(me, cl.nodes[me])), final, best);
    var h: nat :| AnsweredWithin(net(h, final[i].contact), NotLocalId(me), true, Ids(final));
    if best in snapshot {
      HolderAnswers(cl, json, key, now, snapshot, final[i].contact, h);
    }
  }
}
