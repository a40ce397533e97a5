/**
 The iterative lookup (nodex-kademlia/src/lookup.rs): a shortlist of candidates is queried
 in rounds of ALPHA. The network is an arbitrary function from (round, contact) to what
 became of the call, so everything proved here holds against arbitrary replies; the order
 in which the parallel calls of a round finish is chosen nondeterministically.
 */
module Lookup {
  import opened Bytes
  import opened NodeIds
  import opened Contacts
  import opened Sequences
  import opened Sorting
  import opened RoutingTables

  const ALPHA: nat := 3

  datatype CandidateState = Unqueried | InFlight | Queried | Failed

  datatype Candidate = Candidate(contact: Contact, distance: Id, state: CandidateState)

  /**
   What a spawned call ends in: a reply that carries a value, a reply that carries contacts,
   some other reply, an error, or a panic of the task.
   */
  datatype CallOutcome =
    | ValueReply(value: seq<byte>)
    | ContactsReply(contacts: seq<Contact>)
    | OtherReply
    | CallError
    | Panic

  type Network = (nat, Contact) -> CallOutcome

  // ----- shortlists -----

  ghost function Ids(sl: seq<Candidate>): set<Id> {
    set c | c in sl :: c.contact.id
  }

  /** The ids that were ever queried. */
  ghost function Touched(sl: seq<Candidate>): set<Id> {
    set c | c in sl && c.state != Unqueried :: c.contact.id
  }

  ghost predicate DistinctCandidates(sl: seq<Candidate>) {
    forall i, j :: 0 <= i < j < |sl| ==> sl[i].contact.id != sl[j].contact.id
  }

  ghost predicate WellFormed(local: Id, target: Id, sl: seq<Candidate>) {
    DistinctCandidates(sl)
    && forall c :: c in sl ==> c.contact.id != local && c.distance == Distance(c.contact.id, target)
  }

  function CandidateKey(): Candidate -> int {
    (c: Candidate) => FromBE(c.distance)
  }

  predicate Settled(c: Candidate) {
    c.state == Queried || c.state == Failed
  }

  /**
   What a candidate's state says about its call: a queried one answered, and every contact
   it named that the lookup keeps is on the shortlist.
   */
  ghost predicate Justified(net: Network, keep: Contact -> bool, noValue: bool, ids: set<Id>, c: Candidate) {
    match c.state
    case Unqueried => true
    case InFlight => exists h: nat :: net(h, c.contact) == Panic
    case Failed => exists h: nat :: net(h, c.contact) == CallError
    case Queried => exists h: nat :: AnsweredWithin(net(h, c.contact), keep, noValue, ids)
  }

  ghost predicate AnsweredWithin(o: CallOutcome, keep: Contact -> bool, noValue: bool, ids: set<Id>) {
    match o
    case ValueReply(_) => !noValue
    case ContactsReply(cs) => forall nc :: nc in cs && keep(nc) ==> nc.id in ids
    case OtherReply => true
    case CallError => false
    case Panic => false
  }

  ghost predicate AllJustified(net: Network, keep: Contact -> bool, noValue: bool, sl: seq<Candidate>) {
    forall c :: c in sl ==> Justified(net, keep, noValue, Ids(sl), c)
  }

  // ----- picking the next batch -----

  /** The contacts of the unqueried candidates, in order. */
  function Waiting(sl: seq<Candidate>): (q: seq<Contact>)
    ensures |q| <= |sl|
  {
    if sl == [] then []
    else
      var q, last := Waiting(sl[..|sl| - 1]), sl[|sl| - 1];
      if last.state == Unqueried then q + [last.contact] else q
  }

  function Mark(c: Candidate): Candidate {
    if c.state == Unqueried then c.(state := InFlight) else c
  }

  /** The unqueried among the first `n` candidates, at most ALPHA, are put in flight. */
  ghost predicate Selected(sl: seq<Candidate>, n: nat, marked: seq<Candidate>, toQuery: seq<Contact>) {
    && n <= |sl| == |marked|
    && (forall i :: 0 <= i < n ==> marked[i] == Mark(sl[i]))
    && (forall i :: n <= i < |sl| ==> marked[i] == sl[i])
    && toQuery == Waiting(sl[..n])
    && |toQuery| <= ALPHA
    && (n == |sl| || |toQuery| == ALPHA)
  }

  method SelectBatch(sl: seq<Candidate>) returns (marked: seq<Candidate>, toQuery: seq<Contact>, ghost n: nat)
    ensures Selected(sl, n, marked, toQuery)
  {
    marked, toQuery := sl, [];
    var i := 0;
    while i < |sl|
      invariant 0 <= i <= |sl| == |marked|
      invariant forall j :: 0 <= j < i ==> marked[j] == Mark(sl[j])
      invariant forall j :: i <= j < |sl| ==> marked[j] == sl[j]
      invariant toQuery == Waiting(sl[..i]) && |toQuery| < ALPHA
    {
      assert sl[..i + 1][..i] == sl[..i];
      var cand := marked[i];
      marked := marked[i := Mark(cand)];
      i := i + 1;
      if cand.state == Unqueried {
        toQuery := toQuery + [cand.contact];
        if |toQuery| >= ALPHA {
          break;
        }
      }
    }
    n := i;
  }

  lemma {:induction false} WaitingMembers(sl: seq<Candidate>, x: Contact)
    ensures x in Waiting(sl) <==> exists c :: c in sl && c.state == Unqueried && c.contact == x
  {
    if sl != [] {
      var init, last := sl[..|sl| - 1], sl[|sl| - 1];
      WaitingMembers(init, x);
      assert sl == init + [last];
      if c: Candidate :| c in sl && c.state == Unqueried && c.contact == x {
        assert c in init || c == last;
      }
    }
  }

  /**
   The batch consists of the unqueried candidates that were put in flight; it is empty only
   if nobody is left to query, and whoever is left waits behind every member of it.
   */
  lemma SelectedMeaning(sl: seq<Candidate>, n: nat, marked: seq<Candidate>, toQuery: seq<Contact>)
    requires Selected(sl, n, marked, toQuery) && DistinctCandidates(sl)
    ensures forall i :: 0 <= i < |sl| ==>
              marked[i] == if sl[i].contact in toQuery then sl[i].(state := InFlight) else sl[i]
    ensures forall i :: 0 <= i < |sl| && sl[i].contact in toQuery ==> sl[i].state == Unqueried
    ensures forall x :: x in toQuery ==> exists i :: 0 <= i < |sl| && sl[i].contact == x
    ensures forall i, j :: 0 <= i < j < |sl| && sl[j].contact in toQuery ==> marked[i].state != Unqueried
    ensures toQuery == [] ==> forall c :: c in sl ==> c.state != Unqueried
    ensures |toQuery| <= 3
    ensures |toQuery| < 3 ==> forall i :: 0 <= i < |sl| ==> marked[i].state != Unqueried
  {
    forall i | 0 <= i < |sl|
      ensures sl[i].contact in toQuery <==> i < n && sl[i].state == Unqueried
    {
      WaitingMembers(sl[..n], sl[i].contact);
      if i < n {
        assert sl[..n][i] == sl[i];
      }
    }
    forall x | x in toQuery ensures exists i :: 0 <= i < |sl| && sl[i].contact == x {
      WaitingMembers(sl[..n], x);
    }
  }

  lemma {:induction false} WaitingDistinct(sl: seq<Candidate>)
    requires DistinctCandidates(sl)
    ensures DistinctIds(Waiting(sl))
  {
    if sl != [] {
      var init := sl[..|sl| - 1];
      WaitingDistinct(init);
      forall x | x in Waiting(init) ensures x.id != sl[|sl| - 1].contact.id {
        WaitingMembers(init, x);
      }
    }
  }

  // ----- waiting for the calls of a round -----

  function AfterCall(o: CallOutcome): CandidateState {
    match o
    case ValueReply(_) => Queried
    case ContactsReply(_) => Queried
    case OtherReply => Queried
    case CallError => Failed
    case Panic => InFlight
  }

  /** Position of the first candidate with this id, or the length. */
  function Find(sl: seq<Candidate>, id: Id): (i: nat)
    ensures i <= |sl|
    ensures i < |sl| ==> sl[i].contact.id == id
    ensures forall k :: 0 <= k < i ==> sl[k].contact.id != id
  {
    First(sl, (c: Candidate) => c.contact.id == id)
  }

  function Kept(cs: seq<Contact>, keep: Contact -> bool): (r: seq<Contact>)
    ensures forall c :: c in r <==> c in cs && keep(c)
  {
    if cs == [] then []
    else
      var r, last := Kept(cs[..|cs| - 1], keep), cs[|cs| - 1];
      assert forall c :: c in cs <==> c in cs[..|cs| - 1] || c == last;
      if keep(last) then r + [last] else r
  }

  /** A contact that some answered call of this round named and the lookup keeps. */
  ghost predicate Named(net: Network, hop: nat, keep: Contact -> bool, asked: set<Contact>, nc: Contact) {
    exists b :: b in asked && net(hop, b).ContactsReply? && nc in net(hop, b).contacts && keep(nc)
  }

  /** The shortlist after the calls to `done` have ended. */
  ghost predicate Joined(net: Network, hop: nat, sl: seq<Candidate>, done: set<Contact>, r: seq<Candidate>) {
    && |r| == |sl|
    && forall i :: 0 <= i < |sl| ==>
         r[i] == if sl[i].contact in done
                 then sl[i].(state := AfterCall(net(hop, sl[i].contact))) else sl[i]
  }

  /** `join_next` until the set is empty; a value ends the wait if it is what is looked for. */
  method JoinBatch(net: Network, hop: nat, keep: Contact -> bool, wantValue: bool,
                   batch: seq<Contact>, sl: seq<Candidate>)
    returns (r: seq<Candidate>, newContacts: seq<Contact>, found: Option<(seq<byte>, Contact)>)
    requires DistinctCandidates(sl) && DistinctIds(batch)
    requires forall x :: x in batch ==> exists i :: 0 <= i < |sl| && sl[i].contact == x
    requires forall i :: 0 <= i < |sl| && sl[i].contact in batch ==> sl[i].state == InFlight
    ensures found.None? ==> Joined(net, hop, sl, Set(batch), r)
    ensures found.None? ==> forall nc :: nc in newContacts <==> Named(net, hop, keep, Set(batch), nc)
    ensures found.None? && wantValue ==> forall x :: x in batch ==> !net(hop, x).ValueReply?
    ensures found.Some? ==> wantValue && found.value.1 in batch
                            && net(hop, found.value.1) == ValueReply(found.value.0)
  {
    hide AfterCall, Joined, Named;
    r, newContacts, found := sl, [], None;
    var pending := batch;
    ghost var done: set<Contact> := {};
    NothingJoined(net, hop, sl, keep);
    while pending != []
      invariant DistinctIds(pending)
      invariant forall x :: x in batch <==> x in done || x in pending
      invariant forall x :: x in pending ==> x !in done
      invariant Joined(net, hop, sl, done, r)
      invariant forall nc :: nc in newContacts <==> Named(net, hop, keep, done, nc)
      invariant wantValue ==> forall x :: x in done ==> !net(hop, x).ValueReply?
      decreases |pending|
    {
      var j: nat :| j < |pending|;
      var contact := pending[j];
      WithoutKeeps(pending, j);
      WithoutMembers(pending, j);
      pending := Without(pending, j);
      var outcome := net(hop, contact);
      ghost var i :| 0 <= i < |sl| && sl[i].contact == contact;
      JoinOne(net, hop, sl, done, r, i);
      NamedOne(net, hop, keep, done, contact);
      if !outcome.Panic? {
        var at := Find(r, contact.id);
        r := r[at := r[at].(state := if outcome.CallError? then Failed else Queried)];
        match outcome {
          case ValueReply(val) =>
            if wantValue {
              return r, newContacts, Some((val, contact));
            }
          case ContactsReply(contacts) =>
            newContacts := newContacts + Kept(contacts, keep);
          case _ =>
        }
      }
      done := done + {contact};
    }
    assert done == Set(batch);
  }

  ghost function Set(cs: seq<Contact>): set<Contact> {
    set x | x in cs
  }

  lemma NothingJoined(net: Network, hop: nat, sl: seq<Candidate>, keep: Contact -> bool)
    ensures Joined(net, hop, sl, {}, sl)
    ensures forall nc :: !Named(net, hop, keep, {}, nc)
  {
  }

  /** With distinct ids, looking a contact up by id finds its own entry and changes only that. */
  lemma JoinOne(net: Network, hop: nat, sl: seq<Candidate>, done: set<Contact>, r: seq<Candidate>, i: nat)
    requires DistinctCandidates(sl) && Joined(net, hop, sl, done, r)
    requires i < |sl| && sl[i].contact !in done && sl[i].state == InFlight
    ensures var x := sl[i].contact;
            && Find(r, x.id) == i < |r|
            && Joined(net, hop, sl, done + {x}, r[i := r[i].(state := AfterCall(net(hop, x)))])
            && (net(hop, x).Panic? ==> Joined(net, hop, sl, done + {x}, r))
            && (!net(hop, x).Panic? ==> AfterCall(net(hop, x)) == if net(hop, x).CallError? then Failed else Queried)
  {
    assert forall k :: 0 <= k < |sl| ==> r[k].contact == sl[k].contact;
    assert r[i] == sl[i];
  }

  lemma NamedOne(net: Network, hop: nat, keep: Contact -> bool, done: set<Contact>, x: Contact)
    ensures forall nc :: Named(net, hop, keep, done + {x}, nc) <==>
              Named(net, hop, keep, done, nc)
              || (net(hop, x).ContactsReply? && nc in Kept(net(hop, x).contacts, keep))
  {
  }

  lemma WithoutMembers(cs: seq<Contact>, i: nat)
    requires i < |cs| && DistinctIds(cs)
    ensures forall c :: c in cs <==> c == cs[i] || c in Without(cs, i)
    ensures cs[i] !in Without(cs, i)
  {
  }

  // ----- learning new contacts -----

  function Fresh(c: Contact, target: Id): Candidate {
    Candidate(c, Distance(c.id, target), Unqueried)
  }

  ghost predicate IsFresh(cs: seq<Contact>, target: Id, c: Candidate) {
    c.contact in cs && c == Fresh(c.contact, target)
  }

  /** `r` is the shortlist with those of the first `k` contacts added that were not on it. */
  ghost predicate TakenUp(sl: seq<Candidate>, cs: seq<Contact>, k: nat, target: Id, r: seq<Candidate>) {
    && k <= |cs| && |sl| <= |r| && r[..|sl|] == sl && DistinctCandidates(r)
    && (forall i :: |sl| <= i < |r| ==> IsFresh(cs, target, r[i]))
    && (forall j :: 0 <= j < k ==> cs[j].id in Ids(r))
  }

  lemma NextTakenUp(sl: seq<Candidate>, cs: seq<Contact>, k: nat, target: Id, r: seq<Candidate>)
    requires k < |cs| && TakenUp(sl, cs, k, target, r)
    ensures var nc := cs[k];
            TakenUp(sl, cs, k + 1, target, if Find(r, nc.id) == |r| then r + [Fresh(nc, target)] else r)
  {
    hide Fresh, Find;
    var nc := cs[k];
    if Find(r, nc.id) == |r| {
      FreshIsFresh(cs, k, target);
      var grown := r + [Fresh(nc, target)];
      IdsAppend(r, Fresh(nc, target));
      assert grown[..|sl|] == r[..|sl|];
    } else {
      assert r[Find(r, nc.id)] in r;
    }
  }

  lemma FreshIsFresh(cs: seq<Contact>, k: nat, target: Id)
    requires k < |cs|
    ensures IsFresh(cs, target, Fresh(cs[k], target)) && Fresh(cs[k], target).contact == cs[k]
  {
    hide Distance;
  }

  lemma IdsAppend(sl: seq<Candidate>, c: Candidate)
    ensures Ids(sl + [c]) == Ids(sl) + {c.contact.id}
  {
    assert forall x :: x in sl + [c] <==> x in sl || x == c;
  }

  /** The table after one more of the contacts. */
  lemma NextLearned(local: Id, start: Rows, rows: Rows, cs: seq<Contact>, k: nat)
    requires k < |cs| && |start| == NUM_BUCKETS
    requires TableOk(local, rows) && rows == Run(local, start, Updates(cs[..k]))
    ensures TableOk(local, Apply(local, rows, Op.Update(cs[k])))
    ensures Apply(local, rows, Op.Update(cs[k])) == Run(local, start, Updates(cs[..k + 1]))
  {
    hide TableOk, Apply, Run, Updates;
    assert cs[..k + 1] == cs[..k] + [cs[k]];
    UpdatesLast(local, start, cs[..k], cs[k]);
    ApplyKeepsTable(local, rows, Op.Update(cs[k]));
  }

  method Absorb(rt: RoutingTable, target: Id, newContacts: seq<Contact>, sl: seq<Candidate>)
    returns (r: seq<Candidate>)
    requires rt.Valid() && TableOk(rt.localId, rt.Rows())
    requires DistinctCandidates(sl)
    modifies rt.buckets
    ensures TableOk(rt.localId, rt.Rows())
    ensures rt.Rows() == Run(rt.localId, old(rt.Rows()), Updates(newContacts))
    ensures TakenUp(sl, newContacts, |newContacts|, target, r)
  {
    hide TableOk, Apply, Fresh, Run, Updates, TakenUp;
    r := sl;
    UpdatesNone(rt.localId, rt.Rows());
    NothingTakenUp(sl, newContacts, target);
    for k := 0 to |newContacts|
      invariant TableOk(rt.localId, rt.Rows())
      invariant rt.Rows() == Run(rt.localId, old(rt.Rows()), Updates(newContacts[..k]))
      invariant TakenUp(sl, newContacts, k, target, r)
    {
      var nc := newContacts[k];
      NextLearned(rt.localId, old(rt.Rows()), rt.Rows(), newContacts, k);
      var _ := rt.Update(nc);
      NextTakenUp(sl, newContacts, k, target, r);
      if Find(r, nc.id) == |r| {
        r := r + [Fresh(nc, target)];
      }
    }
    assert newContacts[..|newContacts|] == newContacts;
  }

  lemma NothingTakenUp(sl: seq<Candidate>, cs: seq<Contact>, target: Id)
    requires DistinctCandidates(sl)
    ensures TakenUp(sl, cs, 0, target, sl)
  {
  }

  // ----- one round, as a whole -----

  lemma SortCandidates(local: Id, target: Id, sl: seq<Candidate>)
    requires WellFormed(local, target, sl)
    ensures var r := Sort(CandidateKey(), sl);
            && WellFormed(local, target, r) && StrictlySorted(CandidateKey(), r)
            && forall c :: c in r <==> c in sl
  {
    hide FromBE, Distance;
    var key := CandidateKey();
    forall i, j | 0 <= i < j < |sl| ensures key(sl[i]) != key(sl[j]) {
      assert sl[i] in sl && sl[j] in sl;
      CandidatesAtDistinctDistances(target, sl[i], sl[j]);
    }
    SortStrict(key, sl);
    SortMembers(key, sl);
    var r := Sort(key, sl);
    forall i, j | 0 <= i < j < |r| ensures r[i].contact.id != r[j].contact.id {
      assert r[i] in sl && r[j] in sl;
    }
  }

  lemma CandidatesAtDistinctDistances(target: Id, c: Candidate, d: Candidate)
    requires c.distance == Distance(c.contact.id, target) && d.distance == Distance(d.contact.id, target)
    requires c.contact.id != d.contact.id
    ensures FromBE(c.distance) != FromBE(d.distance)
  {
    hide FromBE, Distance;
    if FromBE(c.distance) == FromBE(d.distance) {
      DistInjective(c.contact.id, d.contact.id, target);
    }
  }

  lemma JustifiedMonotone(net: Network, keep: Contact -> bool, noValue: bool, ids: set<Id>, more: set<Id>, c: Candidate)
    requires Justified(net, keep, noValue, ids, c) && ids <= more
    ensures Justified(net, keep, noValue, more, c)
  {
  }

  /** What the lookup started from, or some reply, mentioned this contact. */
  ghost predicate Heard(net: Network, initial: seq<Contact>, x: Contact) {
    x in initial || exists h: nat, b: Contact :: net(h, b).ContactsReply? && x in net(h, b).contacts
  }

  /** The invariant of the lookup loop. */
  ghost predicate Invariant(local: Id, target: Id, net: Network, keep: Contact -> bool, noValue: bool,
                            initial: seq<Contact>, sl: seq<Candidate>) {
    && WellFormed(local, target, sl)
    && StrictlySorted(CandidateKey(), sl)
    && AllJustified(net, keep, noValue, sl)
    && (forall x :: x in initial ==> x.id in Ids(sl))
    && (forall c :: c in sl ==> Heard(net, initial, c.contact))
  }

  /** Somebody on the shortlist is waiting to be asked under this contact. */
  ghost predicate Waits(sl: seq<Candidate>, x: Contact) {
    exists i :: 0 <= i < |sl| && sl[i].contact == x && sl[i].state == Unqueried
  }

  /** A round that asked `batch` turned `sl` into `r` (before sorting). */
  ghost predicate Round(target: Id, net: Network, hop: nat, keep: Contact -> bool,
                        sl: seq<Candidate>, batch: seq<Contact>, r: seq<Candidate>) {
    && |sl| <= |r| && DistinctCandidates(r)
    && (forall i :: 0 <= i < |sl| ==>
          r[i] == if sl[i].contact in batch
                  then sl[i].(state := AfterCall(net(hop, sl[i].contact))) else sl[i])
    && (forall i :: |sl| <= i < |r| ==>
          Named(net, hop, keep, Set(batch), r[i].contact) && r[i] == Fresh(r[i].contact, target))
    && (forall nc :: Named(net, hop, keep, Set(batch), nc) ==> nc.id in Ids(r))
  }

  lemma RoundJustified(target: Id, net: Network, hop: nat, keep: Contact -> bool, noValue: bool,
                       sl: seq<Candidate>, batch: seq<Contact>, r: seq<Candidate>)
    requires Round(target, net, hop, keep, sl, batch, r)
    requires AllJustified(net, keep, noValue, sl)
    requires noValue ==> forall x :: x in batch ==> !net(hop, x).ValueReply?
    ensures Ids(sl) <= Ids(r)
    ensures AllJustified(net, keep, noValue, r)
  {
    forall c | c in sl ensures c.contact.id in Ids(r) {
      var i :| 0 <= i < |sl| && sl[i] == c;
      assert r[i] in r;
    }
    forall c | c in r ensures Justified(net, keep, noValue, Ids(r), c) {
      var i :| 0 <= i < |r| && r[i] == c;
      if i < |sl| && c.contact in batch {
        var o := net(hop, c.contact);
        if o.ContactsReply? {
          forall nc | nc in o.contacts && keep(nc) ensures nc.id in Ids(r) {
            assert Named(net, hop, keep, Set(batch), nc);
          }
        }
        assert c.state == Queried ==> AnsweredWithin(o, keep, noValue, Ids(r));
      } else if i < |sl| {
        assert sl[i] in sl;
        JustifiedMonotone(net, keep, noValue, Ids(sl), Ids(r), c);
      }
    }
  }

  /** A round keeps the invariant, and the ids never yet queried strictly shrink. */
  lemma RoundKeepsInvariant(local: Id, target: Id, net: Network, hop: nat, keep: Contact -> bool, noValue: bool,
                            initial: seq<Contact>, sl: seq<Candidate>, batch: seq<Contact>, r: seq<Candidate>)
    requires Invariant(local, target, net, keep, noValue, initial, sl)
    requires Round(target, net, hop, keep, sl, batch, r)
    requires forall nc :: keep(nc) ==> nc.id != local
    requires noValue ==> forall x :: x in batch ==> !net(hop, x).ValueReply?
    ensures Invariant(local, target, net, keep, noValue, initial, Sort(CandidateKey(), r))
  {
    hide Distance, FromBE, AllJustified, Heard, Sort, DistinctCandidates;
    RoundJustified(target, net, hop, keep, noValue, sl, batch, r);
    RoundWellFormed(local, target, net, hop, keep, initial, sl, batch, r);
    SortCandidates(local, target, r);
    SameJustified(net, keep, noValue, r, Sort(CandidateKey(), r));
  }

  lemma SameJustified(net: Network, keep: Contact -> bool, noValue: bool, r: seq<Candidate>, s: seq<Candidate>)
    requires AllJustified(net, keep, noValue, r) && forall c :: c in s <==> c in r
    ensures Ids(s) == Ids(r) && AllJustified(net, keep, noValue, s)
  {
  }

  lemma RoundWellFormed(local: Id, target: Id, net: Network, hop: nat, keep: Contact -> bool,
                        initial: seq<Contact>, sl: seq<Candidate>, batch: seq<Contact>, r: seq<Candidate>)
    requires WellFormed(local, target, sl) && forall c :: c in sl ==> Heard(net, initial, c.contact)
    requires Round(target, net, hop, keep, sl, batch, r)
    requires forall nc :: keep(nc) ==> nc.id != local
    ensures WellFormed(local, target, r) && forall c :: c in r ==> Heard(net, initial, c.contact)
  {
  }

  lemma RoundProgress(target: Id, net: Network, hop: nat, keep: Contact -> bool,
                      sl: seq<Candidate>, batch: seq<Contact>, r: seq<Candidate>, x: Contact)
    requires Round(target, net, hop, keep, sl, batch, r) && DistinctCandidates(sl)
    requires x in batch && Waits(sl, x)
    ensures Touched(sl) <= Touched(Sort(CandidateKey(), r))
    ensures x.id in Touched(Sort(CandidateKey(), r)) && x.id !in Touched(sl)
  {
    hide AfterCall, Named, Distance, Touched, DistinctCandidates, Waits;
    forall i | 0 <= i < |sl| ensures AfterCall(net(hop, sl[i].contact)) != Unqueried {
      AskedIsTouched(net(hop, sl[i].contact));
    }
    SortMembers(CandidateKey(), r);
    TouchedGrows(sl, batch, r, Sort(CandidateKey(), r), x);
  }

  lemma TouchedGrows(sl: seq<Candidate>, batch: seq<Contact>, r: seq<Candidate>, s: seq<Candidate>, x: Contact)
    requires |sl| <= |r| && DistinctCandidates(sl)
    requires forall c :: c in s <==> c in r
    requires forall i :: 0 <= i < |sl| ==> r[i].contact == sl[i].contact
    requires forall i :: 0 <= i < |sl| && (sl[i].state != Unqueried || sl[i].contact in batch)
                 ==> r[i].state != Unqueried
    requires x in batch && Waits(sl, x)
    ensures Touched(sl) <= Touched(s) && x.id in Touched(s) && x.id !in Touched(sl)
  {
    forall c | c in sl && c.state != Unqueried ensures c.contact.id in Touched(s) {
      var i :| 0 <= i < |sl| && sl[i] == c;
      assert r[i] in r && r[i] in s;
    }
    var i :| 0 <= i < |sl| && sl[i].contact == x && sl[i].state == Unqueried;
    assert r[i] in r && r[i] in s;
  }

  lemma AskedIsTouched(o: CallOutcome)
    ensures AfterCall(o) != Unqueried
  {
  }

  // ----- the two lookups -----

  /** Contacts a lookup starts from and (for node lookups) keeps: not this node itself. */
  function NotSelf(local: Id, localAddr: SocketAddr): Contact -> bool {
    (c: Contact) => c.id != local && c.addr != localAddr
  }

  /** A value lookup filters the contacts it is told about by id only. */
  function NotLocalId(local: Id): Contact -> bool {
    (c: Contact) => c.id != local
  }

  /** The top K have all answered or failed, and at least one of them answered. */
  predicate StopCondition(sl: seq<Candidate>) {
    var top := if |sl| <= K then sl else sl[..K];
    (forall c :: c in top ==> Settled(c)) && exists c :: c in top && c.state == Queried
  }

  function NonFailed(sl: seq<Candidate>): seq<Contact> {
    if sl == [] then []
    else
      var r, last := NonFailed(sl[..|sl| - 1]), sl[|sl| - 1];
      if last.state == CandidateState.Failed then r else r + [last.contact]
  }

  /** Up to K closest contacts that responded or are known. */
  function Answer(sl: seq<Candidate>): seq<Contact> {
    var live := NonFailed(sl);
    if |live| <= K then live else live[..K]
  }

  /** A round of queries left nobody to ask, or the stop condition held. */
  ghost predicate Finished(local: Id, target: Id, net: Network, keep: Contact -> bool, noValue: bool,
                           initial: seq<Contact>, final: seq<Candidate>) {
    && Invariant(local, target, net, keep, noValue, initial, final)
    && ((forall c :: c in final ==> c.state != Unqueried) || StopCondition(final))
  }

  method FreshShortlist(local: Id, target: Id, net: Network, keep: Contact -> bool, noValue: bool,
                        initial: seq<Contact>)
    returns (sl: seq<Candidate>)
    requires DistinctIds(initial) && forall x :: x in initial ==> x.id != local
    ensures Invariant(local, target, net, keep, noValue, initial, sl)
    ensures forall c :: c in sl ==> c.contact in initial
  {
    sl := [];
    for i := 0 to |initial|
      invariant |sl| == i && forall j :: 0 <= j < i ==> sl[j] == Fresh(initial[j], target)
    {
      sl := sl + [Fresh(initial[i], target)];
    }
    SortCandidates(local, target, sl);
    FreshInvariant(local, target, net, keep, noValue, initial, sl, Sort(CandidateKey(), sl));
    sl := Sort(CandidateKey(), sl);
  }

  lemma FreshInvariant(local: Id, target: Id, net: Network, keep: Contact -> bool, noValue: bool,
                       initial: seq<Contact>, sl: seq<Candidate>, sorted: seq<Candidate>)
    requires |sl| == |initial| && forall j :: 0 <= j < |sl| ==> sl[j] == Fresh(initial[j], target)
    requires WellFormed(local, target, sorted) && StrictlySorted(CandidateKey(), sorted)
    requires forall c :: c in sorted <==> c in sl
    ensures Invariant(local, target, net, keep, noValue, initial, sorted)
  {
  }

  lemma {:induction false} KeptDistinct(cs: seq<Contact>, keep: Contact -> bool)
    requires DistinctIds(cs)
    ensures DistinctIds(Kept(cs, keep))
  {
    if cs != [] {
      var init := cs[..|cs| - 1];
      KeptDistinct(init, keep);
      forall k | 0 <= k < |Kept(init, keep)| ensures Kept(init, keep)[k].id != cs[|cs| - 1].id {
        assert Kept(init, keep)[k] in init;
      }
    }
  }

  /** What a completed round leaves behind: the invariant, and strictly fewer unasked ids. */
  lemma RoundDone(local: Id, target: Id, net: Network, hop: nat, keep: Contact -> bool, noValue: bool,
                  initial: seq<Contact>, sl: seq<Candidate>, batch: seq<Contact>, r: seq<Candidate>)
    requires Invariant(local, target, net, keep, noValue, initial, sl)
    requires Round(target, net, hop, keep, sl, batch, r)
    requires forall nc :: keep(nc) ==> nc.id != local
    requires noValue ==> forall x :: x in batch ==> !net(hop, x).ValueReply?
    requires batch != [] && Waits(sl, batch[0])
    ensures Invariant(local, target, net, keep, noValue, initial, Sort(CandidateKey(), r))
    ensures AllIds() - Touched(Sort(CandidateKey(), r)) < AllIds() - Touched(sl)
  {
    hide Distance, FromBE, AllJustified, Heard, AllIds, Round, Touched;
    RoundKeepsInvariant(local, target, net, hop, keep, noValue, initial, sl, batch, r);
    RoundProgress(target, net, hop, keep, sl, batch, r, batch[0]);
    AllIdsComplete(batch[0].id);
  }

  /** The first half of a round: pick the batch and wait for its calls. */
  method AskBatch(net: Network, hop: nat, keep: Contact -> bool, wantValue: bool, sl: seq<Candidate>)
    returns (r: seq<Candidate>, batch: seq<Contact>, newContacts: seq<Contact>, found: Option<(seq<byte>, Contact)>)
    requires DistinctCandidates(sl)
    ensures batch == [] ==> r == sl && found.None? && forall c :: c in sl ==> c.state != Unqueried
    ensures forall x :: x in batch ==> Waits(sl, x)
    ensures found.None? ==> Joined(net, hop, sl, Set(batch), r)
    ensures found.None? ==> forall nc :: nc in newContacts <==> Named(net, hop, keep, Set(batch), nc)
    ensures found.None? && wantValue ==> forall x :: x in batch ==> !net(hop, x).ValueReply?
    ensures found.Some? ==> wantValue && found.value.1 in batch
                            && net(hop, found.value.1) == ValueReply(found.value.0)
  {
    hide AfterCall, Named, Mark, Waiting;
    var marked;
    ghost var n;
    marked, batch, n := SelectBatch(sl);
    SelectedMeaning(sl, n, marked, batch);
    WaitingDistinctPrefix(sl, n);
    if batch == [] {
      assert marked == sl;
      NothingJoined(net, hop, sl, keep);
      assert Set([]) == {};
      return sl, [], [], None;
    }
    r, newContacts, found := JoinBatch(net, hop, keep, wantValue, batch, marked);
  }

  /** One pass through the loop body; `asked` is the size of the batch. */
  method QueryRound(rt: RoutingTable, local: Id, target: Id, net: Network, hop: nat, keep: Contact -> bool,
                    wantValue: bool, ghost initial: seq<Contact>, sl: seq<Candidate>)
    returns (r: seq<Candidate>, asked: nat, found: Option<(seq<byte>, Contact)>, ghost learned: seq<Contact>)
    requires rt.Valid() && TableOk(rt.localId, rt.Rows())
    requires Invariant(local, target, net, keep, wantValue, initial, sl)
    requires forall nc :: keep(nc) ==> nc.id != local
    modifies rt.buckets
    ensures TableOk(rt.localId, rt.Rows())
    ensures rt.Rows() == Run(rt.localId, old(rt.Rows()), Updates(learned))
    ensures Taught(net, keep, learned)
    ensures found.None? ==> forall c :: c in r ==> c.contact in ContactsIn(sl) || c.contact in learned
    ensures asked == 0 ==> r == sl && found.None? && forall c :: c in sl ==> c.state != Unqueried
    ensures asked > 0 && found.None? ==>
              && Invariant(local, target, net, keep, wantValue, initial, r)
              && AllIds() - Touched(r) < AllIds() - Touched(sl)
    ensures found.Some? ==> wantValue && net(hop, found.value.1) == ValueReply(found.value.0)
                            && Heard(net, initial, found.value.1) && found.value.1.id != local
  {
    hide Distance, FromBE, AllJustified, AllIds, Touched, Heard, Sort, TableOk, AfterCall, Named, Waits, Run, Updates,
      Taught, TakenUp, Joined, Round;
    UpdatesNone(rt.localId, rt.Rows());
    learned := [];
    TaughtNothing(net, keep);
    var joined, batch, newContacts;
    joined, batch, newContacts, found := AskBatch(net, hop, keep, wantValue, sl);
    asked := |batch|;
    if found.Some? {
      AskedWasHeard(local, target, net, initial, sl, found.value.1);
      return joined, asked, found, [];
    }
    if batch == [] {
      return sl, 0, None, [];
    }
    JoinedDistinct(net, hop, sl, Set(batch), joined);
    r := Absorb(rt, target, newContacts, joined);
    learned := newContacts;
    NamedIsTaught(net, hop, keep, Set(batch), learned);
    TakenUpRound(target, net, hop, keep, sl, batch, joined, learned, r);
    NothingElse(sl, learned, r);
    RoundDone(local, target, net, hop, keep, wantValue, initial, sl, batch, r);
    r := Sort(CandidateKey(), r);
  }

  lemma UpdatesNone(local: Id, rows: Rows)
    requires |rows| == NUM_BUCKETS
    ensures Run(local, rows, Updates([])) == rows
  {
  }

  ghost function ContactsIn(sl: seq<Candidate>): set<Contact> {
    set c | c in sl :: c.contact
  }

  /** What a lookup taught the routing table: kept contacts that replies named. */
  ghost predicate Taught(net: Network, keep: Contact -> bool, learned: seq<Contact>) {
    forall c :: c in learned ==> keep(c) && Heard(net, [], c)
  }

  lemma NamedIsTaught(net: Network, hop: nat, keep: Contact -> bool, asked: set<Contact>, learned: seq<Contact>)
    requires forall nc :: nc in learned ==> Named(net, hop, keep, asked, nc)
    ensures Taught(net, keep, learned)
  {
  }

  lemma TaughtNothing(net: Network, keep: Contact -> bool)
    ensures Taught(net, keep, [])
  {
  }

  lemma TaughtAppend(net: Network, keep: Contact -> bool, learned: seq<Contact>, more: seq<Contact>)
    requires Taught(net, keep, learned) && Taught(net, keep, more)
    ensures Taught(net, keep, learned + more)
  {
    hide Heard;
  }

  lemma JoinedDistinct(net: Network, hop: nat, sl: seq<Candidate>, done: set<Contact>, r: seq<Candidate>)
    requires DistinctCandidates(sl) && Joined(net, hop, sl, done, r)
    ensures DistinctCandidates(r)
  {
    hide AfterCall;
    assert forall i :: 0 <= i < |sl| ==> r[i].contact == sl[i].contact;
  }

  /** Joining the calls and taking up what they named make a round. */
  lemma TakenUpRound(target: Id, net: Network, hop: nat, keep: Contact -> bool, sl: seq<Candidate>,
                     batch: seq<Contact>, joined: seq<Candidate>, learned: seq<Contact>, r: seq<Candidate>)
    requires Joined(net, hop, sl, Set(batch), joined)
    requires forall nc :: nc in learned <==> Named(net, hop, keep, Set(batch), nc)
    requires TakenUp(joined, learned, |learned|, target, r)
    ensures Round(target, net, hop, keep, sl, batch, r) && |sl| <= |r|
    ensures forall i :: 0 <= i < |sl| ==> r[i].contact == sl[i].contact
    ensures forall i :: |sl| <= i < |r| ==> r[i].contact in learned
  {
    hide AfterCall, Named, Distance, Ids;
    forall i | 0 <= i < |sl| ensures r[i] == joined[i] {
      assert r[..|joined|][i] == r[i];
    }
  }

  /** A round adds no contact to the shortlist that it did not also teach the routing table. */
  lemma NothingElse(sl: seq<Candidate>, learned: seq<Contact>, r: seq<Candidate>)
    requires |sl| <= |r| && forall i :: 0 <= i < |sl| ==> r[i].contact == sl[i].contact
    requires forall i :: |sl| <= i < |r| ==> r[i].contact in learned
    ensures forall c :: c in Sort(CandidateKey(), r) ==> c.contact in ContactsIn(sl) || c.contact in learned
  {
    SortMembers(CandidateKey(), r);
    forall c | c in r ensures c.contact in ContactsIn(sl) || c.contact in learned {
      var i :| 0 <= i < |r| && r[i] == c;
      if i < |sl| {
        assert sl[i] in sl;
      }
    }
  }

  lemma AskedWasHeard(local: Id, target: Id, net: Network, initial: seq<Contact>, sl: seq<Candidate>, x: Contact)
    requires WellFormed(local, target, sl) && Waits(sl, x) && forall c :: c in sl ==> Heard(net, initial, c.contact)
    ensures Heard(net, initial, x) && x.id != local
  {
    hide Heard, Distance;
    var i :| 0 <= i < |sl| && sl[i].contact == x;
    assert sl[i] in sl;
  }

  lemma WaitingDistinctPrefix(sl: seq<Candidate>, n: nat)
    requires DistinctCandidates(sl) && n <= |sl|
    ensures DistinctIds(Waiting(sl[..n]))
  {
    WaitingDistinct(sl[..n]);
  }

  method LookupNodes(localId: Id, localAddr: SocketAddr, rt: RoutingTable, target: Id, net: Network)
    returns (result: seq<Contact>, ghost final: seq<Candidate>, ghost learned: seq<Contact>)
    requires rt.Valid() && rt.localId == localId && TableOk(localId, rt.Rows())
    modifies rt.buckets
    ensures TableOk(localId, rt.Rows())
    ensures rt.Rows() == Run(localId, old(rt.Rows()), Updates(learned))
    ensures Taught(net, NotSelf(localId, localAddr), learned)
    ensures forall c :: c in final ==>
              && (c.contact in ContactsOf(old(rt.Rows())) || c.contact in learned)
              && c.contact.id != localId && c.contact.addr != localAddr
    ensures var keep := NotSelf(localId, localAddr);
            Finished(localId, target, net, keep, false,
                     Kept(Closest(ContactsOf(old(rt.Rows())), target, K), keep), final)
    ensures result == Answer(final)
  {
    hide Distance, FromBE, Invariant, AllIds, Kept, Closest, TableOk, Run, Updates, ContactsOf, Taught;
    var keep := NotSelf(localId, localAddr);
    var closest := rt.FindClosest(target, K);
    ClosestWellFormed(localId, rt.Rows(), target, keep);
    var initial := Kept(closest, keep);
    var sl := FreshShortlist(localId, target, net, keep, false, initial);
    var hop: nat := 0;
    learned := [];
    TaughtNothing(net, keep);
    UpdatesNone(localId, rt.Rows());
    while true
      invariant TableOk(localId, rt.Rows())
      invariant rt.Rows() == Run(localId, old(rt.Rows()), Updates(learned))
      invariant Taught(net, keep, learned)
      invariant forall c :: c in sl ==> c.contact in initial || c.contact in learned
      invariant Invariant(localId, target, net, keep, false, initial, sl)
      decreases AllIds() - Touched(sl)
    {
      var asked, found;
      ghost var more;
      sl, asked, found, more := QueryRound(rt, localId, target, net, hop, keep, false, initial, sl);
      UpdatesAppend(localId, old(rt.Rows()), learned, more);
      TaughtAppend(net, keep, learned, more);
      learned := learned + more;
      if asked == 0 {
        break;
      }
      hop := hop + 1;
      if StopCondition(sl) {
        break;
      }
    }
    KeptOnly(keep, net, initial, learned, sl);
    final := sl;
    result := Answer(sl);
  }

  /** Nothing the filter rejects ever gets onto the shortlist. */
  lemma KeptOnly(keep: Contact -> bool, net: Network, initial: seq<Contact>, learned: seq<Contact>, sl: seq<Candidate>)
    requires (forall c :: c in initial ==> keep(c)) && Taught(net, keep, learned)
    requires forall c :: c in sl ==> c.contact in initial || c.contact in learned
    ensures forall c :: c in sl ==> keep(c.contact)
  {
    hide Heard;
  }

  lemma ClosestWellFormed(local: Id, rows: Rows, target: Id, keep: Contact -> bool)
    requires TableOk(local, rows)
    ensures var r := Kept(Closest(ContactsOf(rows), target, K), keep);
            DistinctIds(r) && forall x :: x in r ==> x.id != local && x in ContactsOf(rows)
  {
    hide Dist, BucketIndex;
    ContactsOfDistinct(local, rows);
    var cs := Closest(ContactsOf(rows), target, K);
    ClosestIsNearest(ContactsOf(rows), target, K);
    forall i, j | 0 <= i < j < |cs| ensures cs[i].id != cs[j].id {
      assert DistKey(target)(cs[i]) < DistKey(target)(cs[j]);
    }
    KeptDistinct(cs, keep);
  }

  datatype LookupValueResult =
    | Found(value: seq<byte>, from: Contact)
    | ClosestNodes(nodes: seq<Contact>)

  method LookupValue(localId: Id, localAddr: SocketAddr, rt: RoutingTable, key: Id, net: Network)
    returns (result: LookupValueResult, ghost final: seq<Candidate>, ghost learned: seq<Contact>)
    requires rt.Valid() && rt.localId == localId && TableOk(localId, rt.Rows())
    modifies rt.buckets
    ensures TableOk(localId, rt.Rows())
    ensures rt.Rows() == Run(localId, old(rt.Rows()), Updates(learned))
    ensures Taught(net, NotLocalId(localId), learned)
    ensures forall c :: c in final ==> c.contact in ContactsOf(old(rt.Rows())) || c.contact in learned
    ensures var initial := Kept(Closest(ContactsOf(old(rt.Rows())), key, K), NotSelf(localId, localAddr));
            match result
            case Found(v, from) =>
              Heard(net, initial, from) && from.id != localId && exists h: nat :: net(h, from) == ValueReply(v)
            case ClosestNodes(nodes) =>
              Finished(localId, key, net, NotLocalId(localId), true, initial, final) && nodes == Answer(final)
  {
    hide Distance, FromBE, Invariant, AllIds, Kept, Closest, Heard, TableOk, Run, Updates, ContactsOf, Taught;
    var keep := NotLocalId(localId);
    var closest := rt.FindClosest(key, K);
    ClosestWellFormed(localId, rt.Rows(), key, NotSelf(localId, localAddr));
    var initial := Kept(closest, NotSelf(localId, localAddr));
    var sl := FreshShortlist(localId, key, net, keep, true, initial);
    final := sl;
    var hop: nat := 0;
    learned := [];
    TaughtNothing(net, keep);
    ghost var known := ContactsOf(rt.Rows());
    UpdatesNone(localId, rt.Rows());
    while true
      invariant TableOk(localId, rt.Rows())
      invariant rt.Rows() == Run(localId, old(rt.Rows()), Updates(learned))
      invariant Taught(net, keep, learned)
      invariant forall c :: c in sl ==> c.contact in known || c.contact in learned
      invariant Invariant(localId, key, net, keep, true, initial, sl)
      decreases AllIds() - Touched(sl)
    {
      var asked, found;
      ghost var more;
      sl, asked, found, more := QueryRound(rt, localId, key, net, hop, keep, true, initial, sl);
      UpdatesAppend(localId, old(rt.Rows()), learned, more);
      TaughtAppend(net, keep, learned, more);
      learned := learned + more;
      if asked == 0 {
        break;
      }
      if found.Some? {
        return Found(found.value.0, found.value.1), final, learned;
      }
      hop := hop + 1;
      if StopCondition(sl) {
        break;
      }
    }
    final := sl;
    result := ClosestNodes(Answer(sl));
  }

  // ----- what a finished lookup guarantees -----

  /** If no task panicked, the first K candidates have all answered or failed. */
  lemma TopSettled(local: Id, target: Id, net: Network, keep: Contact -> bool, noValue: bool,
                   initial: seq<Contact>, final: seq<Candidate>, i: nat)
    requires Finished(local, target, net, keep, noValue, initial, final)
    requires forall h, x :: net(h, x) != Panic
    requires i < |final| && i < 20
    ensures final[i].state == Queried || final[i].state == CandidateState.Failed
  {
    hide WellFormed, StrictlySorted, Heard, Ids;
    assert final[i] in final;
    assert Justified(net, keep, noValue, Ids(final), final[i]);
    if final[i].state == Unqueried {
      assert StopCondition(final);
      StoppedAt(final, i);
    }
  }

  lemma StoppedAt(final: seq<Candidate>, i: nat)
    requires StopCondition(final) && i < |final| && i < 20
    ensures final[i].state != Unqueried
  {
    var top := if |final| <= K then final else final[..K];
    assert top[i] == final[i] && top[i] in top && Settled(top[i]);
  }

  lemma {:induction false} NonFailedMembers(sl: seq<Candidate>, x: Contact)
    ensures x in NonFailed(sl) <==> exists c :: c in sl && c.state != CandidateState.Failed && c.contact == x
  {
    if sl != [] {
      var init, last := sl[..|sl| - 1], sl[|sl| - 1];
      NonFailedMembers(init, x);
      assert sl == init + [last];
      if c: Candidate :| c in sl && c.state != CandidateState.Failed && c.contact == x {
        assert c in init || c == last;
      }
    }
  }

  lemma {:induction false} NonFailedSorted(target: Id, sl: seq<Candidate>)
    requires StrictlySorted(CandidateKey(), sl)
    requires forall c :: c in sl ==> c.distance == Distance(c.contact.id, target)
    ensures StrictlySorted(DistKey(target), NonFailed(sl))
  {
    hide FromBE, Distance;
    if sl != [] {
      var init, last := sl[..|sl| - 1], sl[|sl| - 1];
      NonFailedSorted(target, init);
      forall x | x in NonFailed(init) ensures DistKey(target)(x) < CandidateKey()(last) {
        NonFailedMembers(init, x);
        var c: Candidate :| c in init && c.contact == x;
        var i :| 0 <= i < |init| && init[i] == c;
        assert sl[i] == c && c in sl;
      }
      assert last in sl;
    }
  }

  lemma PrefixIsNearest(target: Id, live: seq<Contact>)
    requires StrictlySorted(DistKey(target), live)
    ensures IsNearest(live, target, K, if |live| <= K then live else live[..K])
  {
  }

  /**
   The result lists, nearest first, the at most K nearest of all non-failed candidates the
   lookup knows; it is strictly increasing in distance and never names the local id.
   */
  lemma AnswerIsNearest(local: Id, target: Id, net: Network, keep: Contact -> bool, noValue: bool,
                        initial: seq<Contact>, final: seq<Candidate>)
    requires Finished(local, target, net, keep, noValue, initial, final)
    ensures IsNearest(NonFailed(final), target, 20, Answer(final))
    ensures forall x :: x in Answer(final) ==> x.id != local && Heard(net, initial, x)
  {
    hide FromBE, Distance, Dist, Justified, Heard;
    NonFailedSorted(target, final);
    PrefixIsNearest(target, NonFailed(final));
    forall x | x in Answer(final) ensures x.id != local && Heard(net, initial, x) {
      NonFailedMembers(final, x);
    }
  }
}
