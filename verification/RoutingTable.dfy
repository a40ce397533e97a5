/**
 k-buckets and the routing table (nodex-kademlia/src/node.rs). The functions on
 sequences say what each operation does to a bucket or to the row of buckets; the
 classes change their `contacts` in place and are proved against them.
 */
module RoutingTables {
  import opened Bytes
  import opened NodeIds
  import opened Contacts
  import opened Sequences
  import opened Sorting

  const K: nat := 20
  const NUM_BUCKETS: nat := 160

  datatype UpdateResult = Inserted | Updated | Full(oldest: Contact) | SelfIgnored

  // ----- one bucket, as a value -----

  /** Position of the first contact with this id, or the length if there is none. */
  function IndexOf(cs: seq<Contact>, id: Id): (i: nat)
    ensures i <= |cs|
    ensures i < |cs| ==> cs[i].id == id
    ensures forall k :: 0 <= k < i ==> cs[k].id != id
  {
    First(cs, (c: Contact) => c.id == id)
  }

  function Without(cs: seq<Contact>, i: nat): seq<Contact>
    requires i < |cs|
  {
    cs[..i] + cs[i + 1..]
  }

  function BucketUpdate(cs: seq<Contact>, c: Contact): (seq<Contact>, UpdateResult) {
    var i := IndexOf(cs, c.id);
    if i < |cs| then (Without(cs, i) + [cs[i].(lastSeen := c.lastSeen)], Updated)
    else if |cs| < K then (cs + [c], Inserted)
    else (cs, Full(cs[0]))
  }

  function BucketForceUpdate(cs: seq<Contact>, c: Contact): (seq<Contact>, UpdateResult) {
    var i := IndexOf(cs, c.id);
    if i < |cs| then (Without(cs, i) + [c], Updated)
    else if |cs| < K then (cs + [c], Inserted)
    else (cs, Full(cs[0]))
  }

  function BucketRemove(cs: seq<Contact>, id: Id): (seq<Contact>, Option<Contact>) {
    var i := IndexOf(cs, id);
    if i < |cs| then (Without(cs, i), Some(cs[i])) else (cs, None)
  }

  function BucketReplaceOldest(cs: seq<Contact>, c: Contact): seq<Contact> {
    (if cs == [] then [] else cs[1..]) + [c]
  }

  class KBucket {
    var contacts: seq<Contact>

    constructor ()
      ensures contacts == []
    {
      contacts := [];
    }

    method Update(contact: Contact) returns (r: UpdateResult)
      modifies this
      ensures (contacts, r) == BucketUpdate(old(contacts), contact)
    {
      var pos := IndexOf(contacts, contact.id);
      if pos < |contacts| {
        var existing := contacts[pos];
        contacts := Without(contacts, pos);
        existing := existing.(lastSeen := contact.lastSeen);
        contacts := contacts + [existing];
        r := Updated;
      } else if |contacts| < K {
        contacts := contacts + [contact];
        r := Inserted;
      } else {
        r := Full(contacts[0]);
      }
    }

    method ForceUpdate(contact: Contact) returns (r: UpdateResult)
      modifies this
      ensures (contacts, r) == BucketForceUpdate(old(contacts), contact)
    {
      var pos := IndexOf(contacts, contact.id);
      if pos < |contacts| {
        contacts := Without(contacts, pos);
        contacts := contacts + [contact];
        r := Updated;
      } else if |contacts| < K {
        contacts := contacts + [contact];
        r := Inserted;
      } else {
        r := Full(contacts[0]);
      }
    }

    method Remove(id: Id) returns (r: Option<Contact>)
      modifies this
      ensures (contacts, r) == BucketRemove(old(contacts), id)
    {
      var pos := IndexOf(contacts, id);
      if pos < |contacts| {
        r := Some(contacts[pos]);
        contacts := Without(contacts, pos);
      } else {
        r := None;
      }
    }

    method ReplaceOldest(contact: Contact)
      modifies this
      ensures contacts == BucketReplaceOldest(old(contacts), contact)
    {
      if contacts != [] {
        contacts := contacts[1..];
      }
      contacts := contacts + [contact];
    }
  }

  // ----- the table, as a value -----

  type Rows = seq<seq<Contact>>

  function BucketIndex(local: Id, id: Id): (i: nat)
    ensures i < NUM_BUCKETS
  {
    var prefix := SharedPrefix(local, id);
    if prefix >= NUM_BUCKETS then NUM_BUCKETS - 1 else prefix
  }

  /** `update` and `force_update` ignore the local id and addresses nobody can reach. */
  predicate Ignored(local: Id, c: Contact) {
    c.id == local || c.addr.port == 0 || c.addr.ip.IsUnspecified() || c.addr.ip.IsMulticast()
  }

  datatype Op =
    | Update(contact: Contact)
    | ForceUpdate(contact: Contact)
    | Remove(id: Id)
    | ReplaceOldest(contact: Contact)

  function Apply(local: Id, rows: Rows, op: Op): (r: Rows)
    requires |rows| == NUM_BUCKETS
    ensures |r| == NUM_BUCKETS
  {
    match op
    case Update(c) =>
      if Ignored(local, c) then rows
      else var i := BucketIndex(local, c.id); rows[i := BucketUpdate(rows[i], c).0]
    case ForceUpdate(c) =>
      if Ignored(local, c) then rows
      else var i := BucketIndex(local, c.id); rows[i := BucketForceUpdate(rows[i], c).0]
    case Remove(id) =>
      var i := BucketIndex(local, id); rows[i := BucketRemove(rows[i], id).0]
    case ReplaceOldest(c) =>
      var i := BucketIndex(local, c.id); rows[i := BucketReplaceOldest(rows[i], c)]
  }

  function Run(local: Id, rows: Rows, ops: seq<Op>): (r: Rows)
    requires |rows| == NUM_BUCKETS
    ensures |r| == NUM_BUCKETS
    decreases |ops|
  {
    if ops == [] then rows else Run(local, Apply(local, rows, ops[0]), ops[1..])
  }

  lemma {:induction false} RunAppend(local: Id, rows: Rows, ops: seq<Op>, more: seq<Op>)
    requires |rows| == NUM_BUCKETS
    ensures Run(local, rows, ops + more) == Run(local, Run(local, rows, ops), more)
    decreases |ops|
  {
    hide Apply;
    if ops == [] {
      assert ops + more == more;
    } else {
      assert (ops + more)[1..] == ops[1..] + more;
      RunAppend(local, Apply(local, rows, ops[0]), ops[1..], more);
    }
  }

  function Updates(cs: seq<Contact>): seq<Op> {
    seq(|cs|, i requires 0 <= i < |cs| => Op.Update(cs[i]))
  }

  /** Learning contacts in two goes is learning them in one. */
  lemma UpdatesAppend(local: Id, rows: Rows, cs: seq<Contact>, more: seq<Contact>)
    requires |rows| == NUM_BUCKETS
    ensures Run(local, rows, Updates(cs + more)) == Run(local, Run(local, rows, Updates(cs)), Updates(more))
  {
    hide Run;
    assert Updates(cs + more) == Updates(cs) + Updates(more);
    RunAppend(local, rows, Updates(cs), Updates(more));
  }

  lemma UpdatesOne(local: Id, rows: Rows, c: Contact)
    requires |rows| == NUM_BUCKETS
    ensures Run(local, rows, Updates([c])) == Apply(local, rows, Op.Update(c))
  {
    hide Apply;
    assert Updates([c]) == [Op.Update(c)];
    assert Run(local, Apply(local, rows, Op.Update(c)), []) == Apply(local, rows, Op.Update(c));
  }

  lemma UpdatesLast(local: Id, rows: Rows, cs: seq<Contact>, c: Contact)
    requires |rows| == NUM_BUCKETS
    ensures Run(local, rows, Updates(cs + [c])) == Apply(local, Run(local, rows, Updates(cs)), Op.Update(c))
  {
    hide Apply, Run, Updates;
    UpdatesAppend(local, rows, cs, [c]);
    UpdatesOne(local, Run(local, rows, Updates(cs)), c);
  }

  ghost predicate DistinctIds(cs: seq<Contact>) {
    forall i, j :: 0 <= i < j < |cs| ==> cs[i].id != cs[j].id
  }

  ghost predicate HasId(cs: seq<Contact>, id: Id) {
    exists c :: c in cs && c.id == id
  }

  ghost predicate BucketOk(local: Id, i: nat, cs: seq<Contact>) {
    |cs| <= K && DistinctIds(cs)
    && forall c :: c in cs ==> c.id != local && BucketIndex(local, c.id) == i
  }

  /** Bounded buckets, every contact in its own bucket, no id twice, never the local id. */
  ghost predicate TableOk(local: Id, rows: Rows) {
    |rows| == NUM_BUCKETS && forall i :: 0 <= i < NUM_BUCKETS ==> BucketOk(local, i, rows[i])
  }

  /**
   What `replace_oldest` needs: the table never checks it, and the receive loop does not
   recheck it after the ping it waited for.
   */
  ghost predicate Safe(local: Id, rows: Rows, op: Op)
    requires |rows| == NUM_BUCKETS
  {
    op.ReplaceOldest? ==>
      var bucket := rows[BucketIndex(local, op.contact.id)];
      op.contact.id != local && (bucket == [] || !HasId(bucket[1..], op.contact.id))
  }

  lemma WithoutKeeps(cs: seq<Contact>, i: nat)
    requires i < |cs| && DistinctIds(cs)
    ensures DistinctIds(Without(cs, i))
    ensures !HasId(Without(cs, i), cs[i].id)
    ensures forall c :: c in Without(cs, i) ==> c in cs
  {
  }

  lemma AppendKeeps(local: Id, i: nat, cs: seq<Contact>, c: Contact)
    requires BucketOk(local, i, cs) && |cs| < K && !HasId(cs, c.id)
    requires c.id != local && BucketIndex(local, c.id) == i
    ensures BucketOk(local, i, cs + [c])
  {
  }

  lemma NotFound(cs: seq<Contact>, id: Id)
    ensures IndexOf(cs, id) == |cs| <==> !HasId(cs, id)
  {
  }

  lemma UpdateKeepsBucket(local: Id, i: nat, cs: seq<Contact>, c: Contact)
    requires BucketOk(local, i, cs) && c.id != local && BucketIndex(local, c.id) == i
    ensures BucketOk(local, i, BucketUpdate(cs, c).0)
    ensures BucketOk(local, i, BucketForceUpdate(cs, c).0)
  {
    hide BucketIndex;
    var p := IndexOf(cs, c.id);
    NotFound(cs, c.id);
    if p < |cs| {
      WithoutKeeps(cs, p);
      AppendKeeps(local, i, Without(cs, p), c);
      AppendKeeps(local, i, Without(cs, p), cs[p].(lastSeen := c.lastSeen));
    } else if |cs| < K {
      AppendKeeps(local, i, cs, c);
    }
  }

  lemma RemoveKeepsBucket(local: Id, i: nat, cs: seq<Contact>, id: Id)
    requires BucketOk(local, i, cs)
    ensures BucketOk(local, i, BucketRemove(cs, id).0)
    ensures !HasId(BucketRemove(cs, id).0, id)
  {
    hide BucketIndex;
  }

  lemma ReplaceKeepsBucket(local: Id, i: nat, cs: seq<Contact>, c: Contact)
    requires BucketOk(local, i, cs) && BucketIndex(local, c.id) == i
    ensures BucketOk(local, i, BucketReplaceOldest(cs, c))
            <==> c.id != local && (cs == [] || !HasId(cs[1..], c.id))
  {
    hide BucketIndex;
    var rest := if cs == [] then [] else cs[1..];
    var r := BucketReplaceOldest(cs, c);
    assert r[|rest|] == c;
    if !HasId(rest, c.id) && c.id != local {
      AppendKeeps(local, i, rest, c);
    } else if HasId(rest, c.id) {
      var k :| 0 <= k < |rest| && rest[k].id == c.id;
      assert r[k].id == r[|rest|].id;
    }
  }

  /**
   Every operation keeps the table invariant, `ReplaceOldest` exactly when the new id is
   neither the local one nor already among the contacts that stay in the bucket.
   */
  lemma ApplyKeepsTable(local: Id, rows: Rows, op: Op)
    requires TableOk(local, rows)
    ensures TableOk(local, Apply(local, rows, op)) <==> Safe(local, rows, op)
  {
    hide BucketIndex, BucketOk;
    var r := Apply(local, rows, op);
    match op
    case Update(c) =>
      if !Ignored(local, c) {
        UpdateKeepsBucket(local, BucketIndex(local, c.id), rows[BucketIndex(local, c.id)], c);
      }
    case ForceUpdate(c) =>
      if !Ignored(local, c) {
        UpdateKeepsBucket(local, BucketIndex(local, c.id), rows[BucketIndex(local, c.id)], c);
      }
    case Remove(id) =>
      RemoveKeepsBucket(local, BucketIndex(local, id), rows[BucketIndex(local, id)], id);
    case ReplaceOldest(c) =>
      var i := BucketIndex(local, c.id);
      ReplaceKeepsBucket(local, i, rows[i], c);
      assert r[i] == BucketReplaceOldest(rows[i], c);
      if Safe(local, rows, op) {
        forall j | 0 <= j < NUM_BUCKETS ensures BucketOk(local, j, r[j]) {
          if j != i {
            assert r[j] == rows[j];
          }
        }
      }
  }

  /** Every `ReplaceOldest` along the run meets its condition when its turn comes. */
  ghost predicate SafeRun(local: Id, rows: Rows, ops: seq<Op>)
    requires |rows| == NUM_BUCKETS
    decreases |ops|
  {
    ops != [] ==> Safe(local, rows, ops[0]) && SafeRun(local, Apply(local, rows, ops[0]), ops[1..])
  }

  lemma {:induction false} RunKeepsTable(local: Id, rows: Rows, ops: seq<Op>)
    requires TableOk(local, rows) && SafeRun(local, rows, ops)
    ensures TableOk(local, Run(local, rows, ops))
    decreases |ops|
  {
    hide BucketOk, Safe, Apply;
    if ops != [] {
      ApplyKeepsTable(local, rows, ops[0]);
      RunKeepsTable(local, Apply(local, rows, ops[0]), ops[1..]);
    }
  }

  /**
   The gap between ping and replacement: two datagrams of `c` find its bucket full before the
   first ping has failed, both pings fail, and the second replacement stores `c` twice.
   */
  lemma LateReplacementDuplicates(local: Id, rows: Rows, c: Contact, oldest: Contact)
    requires TableOk(local, rows) && !Ignored(local, c)
    requires BucketUpdate(rows[BucketIndex(local, c.id)], c).1 == Full(oldest)
    ensures !TableOk(local, Run(local, rows, [Op.Update(c), Op.Update(c), ReplaceOldest(c), ReplaceOldest(c)]))
  {
    hide BucketIndex, BucketUpdate, Run;
    var i := BucketIndex(local, c.id);
    var full := rows[i];
    FullBucket(full, c, oldest);
    NotFound(full, c.id);
    assert Apply(local, rows, Op.Update(c)) == rows;
    var replaced := Apply(local, rows, ReplaceOldest(c));
    assert HasId(replaced[i][1..], c.id) by {
      assert replaced[i][1..][|full| - 2] == c;
    }
    assert forall x :: x in full[1..] ==> x in full;
    ApplyKeepsTable(local, rows, ReplaceOldest(c));
    ApplyKeepsTable(local, replaced, ReplaceOldest(c));
    RunFour(local, rows, Op.Update(c), Op.Update(c), ReplaceOldest(c), ReplaceOldest(c));
  }

  lemma RunFour(local: Id, rows: Rows, a: Op, b: Op, c: Op, d: Op)
    requires |rows| == NUM_BUCKETS
    ensures Run(local, rows, [a, b, c, d])
            == Apply(local, Apply(local, Apply(local, Apply(local, rows, a), b), c), d)
  {
    hide Apply;
    var r1 := Apply(local, rows, a);
    var r2 := Apply(local, r1, b);
    var r3 := Apply(local, r2, c);
    assert [a, b, c, d][1..] == [b, c, d] && [b, c, d][1..] == [c, d] && [c, d][1..] == [d] && [d][1..] == [];
    assert Run(local, r3, [d]) == Apply(local, r3, d);
    assert Run(local, r2, [c, d]) == Run(local, r3, [d]);
    assert Run(local, r1, [b, c, d]) == Run(local, r2, [c, d]);
  }

  lemma FullBucket(cs: seq<Contact>, c: Contact, oldest: Contact)
    requires |cs| <= K && BucketUpdate(cs, c).1 == Full(oldest)
    ensures |cs| == K && oldest == cs[0] && IndexOf(cs, c.id) == |cs|
    ensures BucketUpdate(cs, c).0 == cs
  {
  }

  /** `update` never changes the address stored for an id, whoever claims it. */
  lemma UpdateKeepsAddresses(local: Id, rows: Rows, c: Contact, d: Contact)
    requires TableOk(local, rows)
    requires d in rows[BucketIndex(local, d.id)]
    ensures exists e :: e in Apply(local, rows, Op.Update(c))[BucketIndex(local, d.id)]
              && e.id == d.id && e.addr == d.addr
  {
    hide BucketIndex;
  }

  /** Over any run of updates, a known id keeps the address it was first stored with. */
  lemma {:induction false} RunOfUpdatesKeepsAddress(local: Id, rows: Rows, ops: seq<Op>, d: Contact)
    requires TableOk(local, rows) && (forall op :: op in ops ==> op.Update?)
    requires d in rows[BucketIndex(local, d.id)]
    ensures exists e :: e in Run(local, rows, ops)[BucketIndex(local, d.id)]
              && e.id == d.id && e.addr == d.addr
    decreases |ops|
  {
    hide BucketIndex, BucketOk, Apply;
    if ops != [] {
      var i, r := BucketIndex(local, d.id), Apply(local, rows, ops[0]);
      UpdateKeepsAddresses(local, rows, ops[0].contact, d);
      ApplyKeepsTable(local, rows, ops[0]);
      var e: Contact :| e in r[i] && e.id == d.id && e.addr == d.addr;
      RunOfUpdatesKeepsAddress(local, r, ops[1..], e);
    }
  }

  // ----- all contacts, and the closest ones -----

  function ContactsOf(rows: Rows): seq<Contact> {
    if rows == [] then [] else ContactsOf(rows[..|rows| - 1]) + rows[|rows| - 1]
  }

  lemma {:induction false} ContactsOfMembers(rows: Rows, c: Contact)
    ensures c in ContactsOf(rows) <==> exists i :: 0 <= i < |rows| && c in rows[i]
  {
    if rows != [] {
      var n := |rows| - 1;
      ContactsOfMembers(rows[..n], c);
      assert c in ContactsOf(rows) <==> c in ContactsOf(rows[..n]) || c in rows[n];
      forall i | 0 <= i < n ensures rows[..n][i] == rows[i] {
      }
      if c in ContactsOf(rows[..n]) {
        var i :| 0 <= i < n && c in rows[..n][i];
        assert c in rows[i];
      }
    }
  }

  lemma {:induction false} ContactsOfDistinct(local: Id, rows: Rows)
    requires forall i :: 0 <= i < |rows| ==> BucketOk(local, i, rows[i])
    ensures DistinctIds(ContactsOf(rows))
    ensures forall c :: c in ContactsOf(rows) ==> c.id != local && BucketIndex(local, c.id) < |rows|
  {
    if rows != [] {
      ContactsOfDistinct(local, rows[..|rows| - 1]);
    }
  }

  lemma TableContactsDistinct(local: Id, rows: Rows)
    requires TableOk(local, rows)
    ensures DistinctIds(ContactsOf(rows))
  {
    ContactsOfDistinct(local, rows);
  }

  function DistKey(target: Id): Contact -> int {
    (c: Contact) => Dist(c.id, target)
  }

  /** Sort by distance, truncate. */
  function Closest(cs: seq<Contact>, target: Id, count: nat): seq<Contact> {
    var sorted := Sort(DistKey(target), cs);
    if |sorted| <= count then sorted else sorted[..count]
  }

  /** `r` lists the `count` contacts of `cs` nearest to the target, nearest first. */
  ghost predicate IsNearest(cs: seq<Contact>, target: Id, count: nat, r: seq<Contact>) {
    |r| == (if |cs| <= count then |cs| else count)
    && StrictlySorted(DistKey(target), r)
    && (forall c :: c in r ==> c in cs)
    && (forall c, d :: c in cs && c !in r && d in r ==> Dist(d.id, target) < Dist(c.id, target))
  }

  lemma DistinctIdsDistinctKeys(cs: seq<Contact>, target: Id)
    requires DistinctIds(cs)
    ensures DistinctKeys(DistKey(target), cs)
  {
    forall i, j | 0 <= i < j < |cs| ensures Dist(cs[i].id, target) != Dist(cs[j].id, target) {
      if Dist(cs[i].id, target) == Dist(cs[j].id, target) {
        DistInjective(cs[i].id, cs[j].id, target);
      }
    }
  }

  lemma ClosestIsNearest(cs: seq<Contact>, target: Id, count: nat)
    requires DistinctIds(cs)
    ensures IsNearest(cs, target, count, Closest(cs, target, count))
  {
    hide Dist;
    var key := DistKey(target);
    DistinctIdsDistinctKeys(cs, target);
    SortStrict(key, cs);
    SortMembers(key, cs);
    var sorted, r := Sort(key, cs), Closest(cs, target, count);
    forall c, d | c in cs && c !in r && d in r ensures key(d) < key(c) {
      var i :| 0 <= i < |sorted| && sorted[i] == c;
      var j :| 0 <= j < |r| && r[j] == d;
      assert sorted[j] == d;
    }
  }

  /** There is only one such list, so no sorting algorithm could answer differently. */
  lemma NearestUnique(cs: seq<Contact>, target: Id, count: nat, r: seq<Contact>)
    requires DistinctIds(cs) && IsNearest(cs, target, count, r)
    ensures r == Closest(cs, target, count)
  {
    ClosestIsNearest(cs, target, count);
    NearestAgree(cs, target, count, r, Closest(cs, target, count), |r|);
  }

  lemma {:induction false} NearestAgree(cs: seq<Contact>, target: Id, count: nat, r: seq<Contact>, s: seq<Contact>,
                                        n: nat)
    requires DistinctIds(cs)
    requires IsNearest(cs, target, count, r) && IsNearest(cs, target, count, s)
    requires n <= |r|
    ensures |r| == |s| && r[..n] == s[..n]
  {
    hide Dist;
    if n > 0 {
      NearestAgree(cs, target, count, r, s, n - 1);
      NoCloser(cs, target, count, r, s, n - 1);
      NoCloser(cs, target, count, s, r, n - 1);
      DistInjective(r[n - 1].id, s[n - 1].id, target);
      assert r[n - 1] in cs && s[n - 1] in cs;
      assert r[..n] == r[..n - 1] + [r[n - 1]] && s[..n] == s[..n - 1] + [s[n - 1]];
    }
  }

  lemma NoCloser(cs: seq<Contact>, target: Id, count: nat, r: seq<Contact>, s: seq<Contact>, n: nat)
    requires IsNearest(cs, target, count, r) && IsNearest(cs, target, count, s)
    requires n < |r| && r[..n] == s[..n]
    ensures Dist(s[n].id, target) <= Dist(r[n].id, target)
  {
  }

  // ----- what the operations do -----

  /** The others of a bucket, in their order. */
  ghost function Others(cs: seq<Contact>, id: Id): seq<Contact> {
    Filter(cs, (c: Contact) => c.id != id)
  }

  lemma OthersExactly(cs: seq<Contact>, id: Id)
    requires DistinctIds(cs)
    ensures var i := IndexOf(cs, id);
            Others(cs, id) == if i < |cs| then Without(cs, i) else cs
  {
    hide IndexOf, Filter;
    var i, p := IndexOf(cs, id), (c: Contact) => c.id != id;
    if i < |cs| {
      assert cs == cs[..i] + [cs[i]] + cs[i + 1..];
      FilterPush(cs[..i], cs[i], p);
      FilterAppend(cs[..i] + [cs[i]], cs[i + 1..], p);
      FilterAll(cs[..i], p);
      FilterAll(cs[i + 1..], p);
    } else {
      FilterAll(cs, p);
    }
  }

  /**
   `update`: a known id goes behind the others with its old address and the new time stamp; a new
   one is appended while there are fewer than 20; otherwise nothing changes and the head is named.
   */
  lemma UpdateExactly(cs: seq<Contact>, c: Contact)
    requires DistinctIds(cs)
    ensures var (r, out) := BucketUpdate(cs, c);
            && (forall k :: k in cs && k.id == c.id ==>
                  r == Others(cs, c.id) + [Contact(c.id, k.addr, c.lastSeen)] && out == Updated)
            && ((forall k :: k in cs ==> k.id != c.id) ==>
                  if |cs| < 20 then r == cs + [c] && out == Inserted else r == cs && out == Full(cs[0]))
  {
    hide IndexOf, Others, Without;
    OthersExactly(cs, c.id);
    SoleContact(cs, c.id);
  }

  /** With distinct ids the search finds the only contact with the id. */
  lemma SoleContact(cs: seq<Contact>, id: Id)
    requires DistinctIds(cs)
    ensures var i := IndexOf(cs, id);
            && (i < |cs| <==> exists k :: k in cs && k.id == id)
            && (i < |cs| ==> forall k :: k in cs && k.id == id ==> k == cs[i])
  {
    hide IndexOf;
    forall k | k in cs && k.id == id ensures IndexOf(cs, id) < |cs| && cs[IndexOf(cs, id)] == k {
      var j :| 0 <= j < |cs| && cs[j] == k;
    }
  }

  /** `force_update`: the same, but a known id takes the new address. */
  lemma ForceUpdateExactly(cs: seq<Contact>, c: Contact)
    requires DistinctIds(cs)
    ensures var (r, out) := BucketForceUpdate(cs, c);
            && ((exists k :: k in cs && k.id == c.id) ==> r == Others(cs, c.id) + [c] && out == Updated)
            && ((forall k :: k in cs ==> k.id != c.id) ==>
                  if |cs| < 20 then r == cs + [c] && out == Inserted else r == cs && out == Full(cs[0]))
  {
    hide IndexOf;
    OthersExactly(cs, c.id);
    if k :| k in cs && k.id == c.id {
      var j :| 0 <= j < |cs| && cs[j] == k;
    }
  }

  /** `remove`: the contact with the id leaves and is returned; the others stay in order. */
  lemma RemoveExactly(cs: seq<Contact>, id: Id)
    requires DistinctIds(cs)
    ensures var (r, out) := BucketRemove(cs, id);
            && r == Others(cs, id)
            && (out.Some? <==> exists k :: k in cs && k.id == id)
            && (out.Some? ==> out.value in cs && out.value.id == id)
  {
    hide IndexOf;
    OthersExactly(cs, id);
    if k :| k in cs && k.id == id {
      var j :| 0 <= j < |cs| && cs[j] == k;
    }
  }

  /** `replace_oldest`: the head leaves, the new contact comes last. */
  lemma ReplaceOldestExactly(cs: seq<Contact>, c: Contact)
    ensures cs == [] ==> BucketReplaceOldest(cs, c) == [c]
    ensures cs != [] ==> [cs[0]] + BucketReplaceOldest(cs, c) == cs + [c]
  {
  }

  /** In the order in which they were last heard of. */
  ghost predicate Seniority(cs: seq<Contact>) {
    forall i, j :: 0 <= i < j < |cs| ==> cs[i].lastSeen <= cs[j].lastSeen
  }

  /** No two are out of order, and none is later than `now`. */
  ghost predicate SeniorUntil(cs: seq<Contact>, now: nat) {
    Seniority(cs) && forall k :: 0 <= k < |cs| ==> cs[k].lastSeen <= now
  }

  lemma UpdateKeepsSeniority(cs: seq<Contact>, c: Contact, before: nat)
    requires SeniorUntil(cs, before) && before <= c.lastSeen
    ensures SeniorUntil(BucketUpdate(cs, c).0, c.lastSeen)
    ensures SeniorUntil(BucketForceUpdate(cs, c).0, c.lastSeen)
  {
    hide IndexOf;
    var i := IndexOf(cs, c.id);
    if i < |cs| {
      WithoutKeepsSeniority(cs, i, before);
      LastKeepsSeniority(Without(cs, i), cs[i].(lastSeen := c.lastSeen), before);
      LastKeepsSeniority(Without(cs, i), c, before);
    } else {
      LastKeepsSeniority(cs, c, before);
    }
  }

  lemma WithoutKeepsSeniority(cs: seq<Contact>, i: nat, now: nat)
    requires SeniorUntil(cs, now) && i < |cs|
    ensures SeniorUntil(Without(cs, i), now)
  {
  }

  lemma LastKeepsSeniority(cs: seq<Contact>, c: Contact, before: nat)
    requires SeniorUntil(cs, before) && before <= c.lastSeen
    ensures SeniorUntil(cs + [c], c.lastSeen)
  {
  }

  lemma StepKeepsSeniority(local: Id, rows: Rows, op: Op, before: nat, now: nat, i: nat)
    requires |rows| == NUM_BUCKETS && i < NUM_BUCKETS && before <= now && SeniorUntil(rows[i], before)
    requires !op.ReplaceOldest? && (!op.Remove? ==> op.contact.lastSeen == now)
    ensures SeniorUntil(Apply(local, rows, op)[i], now)
  {
    hide BucketIndex, Ignored, IndexOf, SeniorUntil, BucketUpdate, BucketForceUpdate, Without;
    LaterSeniority(rows[i], before, now);
    match op
    case Update(c) => UpdateKeepsSeniority(rows[i], c, before);
    case ForceUpdate(c) => UpdateKeepsSeniority(rows[i], c, before);
    case Remove(id) =>
      var p := IndexOf(rows[i], id);
      if p < |rows[i]| {
        WithoutKeepsSeniority(rows[i], p, now);
      }
  }

  lemma LaterSeniority(cs: seq<Contact>, before: nat, now: nat)
    requires SeniorUntil(cs, before) && before <= now
    ensures SeniorUntil(cs, now)
  {
  }

  /**
   Over every run of updates and removals at times that do not decrease, a bucket stays ordered by
   when its contacts were last heard of: its head, the one to be pinged and replaced, is the one not
   heard of for longest.
   */
  lemma {:induction false} RunKeepsSeniority(local: Id, rows: Rows, ops: seq<Op>, times: seq<nat>, i: nat)
    requires |rows| == NUM_BUCKETS && i < NUM_BUCKETS && |times| == |ops| + 1 && SeniorUntil(rows[i], times[0])
    requires forall k :: 0 <= k < |ops| ==> times[k] <= times[k + 1] && !ops[k].ReplaceOldest?
    requires forall k :: 0 <= k < |ops| && !ops[k].Remove? ==> ops[k].contact.lastSeen == times[k + 1]
    ensures SeniorUntil(Run(local, rows, ops)[i], times[|ops|])
    decreases |ops|
  {
    hide Apply, SeniorUntil;
    if ops != [] {
      StepKeepsSeniority(local, rows, ops[0], times[0], times[1], i);
      RunKeepsSeniority(local, Apply(local, rows, ops[0]), ops[1..], times[1..], i);
    }
  }

  /** There is a bucket for each number of shared leading bits below 160; the local id would be in the last. */
  lemma BucketIndexExactly(local: Id, id: Id)
    ensures BucketIndex(local, id) == if id == local then 159 else SharedPrefix(local, id)
  {
    PrefixFull(local, id);
  }

  /** Whom the table ignores: itself, port 0, 0.0.0.0 and ::, 224.0.0.0 to 239.255.255.255, ff00::/8. */
  lemma IgnoredExactly(local: Id, c: Contact)
    ensures Ignored(local, c) <==>
              || c.id == local || c.addr.port == 0
              || (c.addr.ip.V4? && (c.addr.ip.octets4 == [0, 0, 0, 0] || 224 <= c.addr.ip.octets4[0] <= 239))
              || (c.addr.ip.V6? && ((forall k :: 0 <= k < 16 ==> c.addr.ip.octets6[k] == 0)
                                    || c.addr.ip.octets6[0] == 255))
  {
    if c.addr.ip.V6? && forall k :: 0 <= k < 16 ==> c.addr.ip.octets6[k] == 0 {
      assert c.addr.ip.octets6 == seq(16, _ => 0);
    }
  }

  // ----- the table, in place -----

  class RoutingTable {
    const localId: Id
    const buckets: seq<KBucket>

    ghost predicate Valid() {
      |buckets| == NUM_BUCKETS
      && forall i, j :: 0 <= i < j < NUM_BUCKETS ==> buckets[i] != buckets[j]
    }

    ghost function Rows(): (r: Rows)
      requires Valid()
      reads buckets
      ensures |r| == NUM_BUCKETS
    {
      seq(NUM_BUCKETS, i requires 0 <= i < NUM_BUCKETS reads buckets => buckets[i].contacts)
    }

    constructor (localId: Id)
      ensures Valid() && fresh(buckets) && this.localId == localId
      ensures Rows() == seq(NUM_BUCKETS, _ => [])
      ensures TableOk(localId, Rows())
    {
      var bs: seq<KBucket> := [];
      for n := 0 to NUM_BUCKETS
        invariant |bs| == n && fresh(bs)
        invariant forall i :: 0 <= i < n ==> bs[i].contacts == []
        invariant forall i, j :: 0 <= i < j < n ==> bs[i] != bs[j]
      {
        var b := new KBucket();
        bs := bs + [b];
      }
      this.localId := localId;
      this.buckets := bs;
    }

    method Update(contact: Contact) returns (r: UpdateResult)
      requires Valid()
      modifies buckets
      ensures Rows() == Apply(localId, old(Rows()), Op.Update(contact))
      ensures Ignored(localId, contact) ==> r == SelfIgnored
      ensures !Ignored(localId, contact) ==>
                r == BucketUpdate(old(Rows())[BucketIndex(localId, contact.id)], contact).1
    {
      if contact.id == localId {
        return SelfIgnored;
      }
      if contact.addr.port == 0 || contact.addr.ip.IsUnspecified() || contact.addr.ip.IsMulticast() {
        return SelfIgnored;
      }
      var idx := BucketIndex(localId, contact.id);
      r := buckets[idx].Update(contact);
    }

    method ForceUpdate(contact: Contact) returns (r: UpdateResult)
      requires Valid()
      modifies buckets
      ensures Rows() == Apply(localId, old(Rows()), Op.ForceUpdate(contact))
      ensures Ignored(localId, contact) ==> r == SelfIgnored
      ensures !Ignored(localId, contact) ==>
                r == BucketForceUpdate(old(Rows())[BucketIndex(localId, contact.id)], contact).1
    {
      if contact.id == localId {
        return SelfIgnored;
      }
      if contact.addr.port == 0 || contact.addr.ip.IsUnspecified() || contact.addr.ip.IsMulticast() {
        return SelfIgnored;
      }
      var idx := BucketIndex(localId, contact.id);
      r := buckets[idx].ForceUpdate(contact);
    }

    method Remove(id: Id) returns (r: Option<Contact>)
      requires Valid()
      modifies buckets
      ensures Rows() == Apply(localId, old(Rows()), Op.Remove(id))
      ensures r == BucketRemove(old(Rows())[BucketIndex(localId, id)], id).1
    {
      var idx := BucketIndex(localId, id);
      r := buckets[idx].Remove(id);
    }

    method ReplaceOldest(contact: Contact)
      requires Valid()
      modifies buckets
      ensures Rows() == Apply(localId, old(Rows()), Op.ReplaceOldest(contact))
    {
      var idx := BucketIndex(localId, contact.id);
      buckets[idx].ReplaceOldest(contact);
    }

    method AllContacts() returns (list: seq<Contact>)
      requires Valid()
      ensures list == ContactsOf(Rows())
    {
      list := [];
      for i := 0 to NUM_BUCKETS
        invariant list == ContactsOf(Rows()[..i])
      {
        assert Rows()[..i + 1][..i] == Rows()[..i];
        list := list + buckets[i].contacts;
      }
      assert Rows()[..NUM_BUCKETS] == Rows();
    }

    method FindClosest(target: Id, count: nat) returns (all: seq<Contact>)
      requires Valid()
      ensures all == Closest(ContactsOf(Rows()), target, count)
      ensures TableOk(localId, Rows()) ==> IsNearest(ContactsOf(Rows()), target, count, all)
    {
      hide TableOk, IsNearest;
      all := AllContacts();
      all := Sort(DistKey(target), all);
      if |all| > count {
        all := all[..count];
      }
      if TableOk(localId, Rows()) {
        TableContactsDistinct(localId, Rows());
        ClosestIsNearest(ContactsOf(Rows()), target, count);
      }
    }
  }
}
