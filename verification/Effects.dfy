/**
 What single operations do to a messenger, told without the functions that do it: which messages
 are present afterwards and what they say, what is queued, and whom an envelope makes it answer
 (nodex-messenger/src/db.rs, messenger.rs).
 */
module Effects {
  import opened Bytes
  import opened Sequences
  import opened MessengerDbs
  import opened Messengers
  import Outbox
  import Replay

  // ----- the message store -----

  /** Present afterwards is exactly what these messages become under a change. */
  ghost predicate Changed(before: Db, after: Db, change: Msg -> Msg) {
    && |after.messages| == |before.messages|
    && (forall i :: 0 <= i < |before.messages| ==> after.messages[i] == change(before.messages[i]))
    && after.deleted == before.deleted && after.pending == before.pending
  }

  /** Present afterwards is exactly who stays, in the order they had. */
  ghost predicate Left(before: Db, after: Db, stays: Msg -> bool) {
    after.messages == Filter(before.messages, stays)
  }

  lemma AddExactly(db: Db, m: Msg)
    requires DbOk(db)
    ensures var r := Add(db, m);
            && r.deleted == db.deleted && r.pending == db.pending
            && (m.id in db.deleted ==> r == db)
            && (m.id !in db.deleted ==>
                  forall x :: x in r.messages <==> x == m || (x in db.messages && x.id != m.id))
  {
    AddKeeps(db, m);
    SamePending(db, m);
  }

  lemma MarkDeliveredExactly(db: Db, id: MsgId)
    requires DbOk(db)
    ensures Changed(db, MarkDelivered(db, id), (m: Msg) => if m.id == id then m.(delivered := true) else m)
  {
    OnlyOne(db, id);
  }

  lemma EditTextExactly(db: Db, id: MsgId, text: string)
    requires DbOk(db)
    ensures Changed(db, EditText(db, id, text), (m: Msg) => if m.id == id then m.(text := text) else m)
  {
    OnlyOne(db, id);
  }

  lemma EditByAuthorExactly(db: Db, id: MsgId, text: string, author: UserId)
    requires DbOk(db)
    ensures Changed(db, EditByAuthor(db, id, text, author),
                    (m: Msg) => if m.id == id && m.sender == author then m.(text := text) else m)
  {
    OnlyOne(db, id);
  }

  /** At most one message has the id, and the search finds it. */
  lemma OnlyOne(db: Db, id: MsgId)
    requires DbOk(db)
    ensures forall i :: 0 <= i < |db.messages| ==> (db.messages[i].id == id <==> i == PositionOf(db.messages, id))
  {
    hide PositionOf;
  }

  lemma DeleteAllExactly(db: Db, ids: seq<MsgId>)
    ensures var r := DeleteAll(db, ids);
            && Left(db, r, (m: Msg) => m.id !in ids)
            && (forall id :: id in r.deleted <==> id in db.deleted || id in ids) && r.pending == db.pending
  {
    FilterSame(db.messages, m => m !in WithIds(db.messages, IdSet(ids)), (m: Msg) => m.id !in ids);
  }

  lemma ClearForExactly(db: Db, contact: UserId)
    ensures var r := ClearFor(db, contact);
            && Left(db, r, (m: Msg) => m.group.Some? || (m.sender != contact && m.recipient != contact))
            && (forall id :: id in r.deleted <==>
                  id in db.deleted || exists m :: m in db.messages && m !in r.messages && m.id == id)
            && r.pending == db.pending
  {
    var r := ClearFor(db, contact);
    FilterSame(db.messages, m => m !in Concerning(db.messages, contact),
               (m: Msg) => m.group.Some? || (m.sender != contact && m.recipient != contact));
    forall id ensures id in r.deleted <==>
        id in db.deleted || exists m :: m in db.messages && m !in r.messages && m.id == id
    {
      if id in IdsOf(Concerning(db.messages, contact)) {
        var m :| m in Concerning(db.messages, contact) && m.id == id;
        assert m in db.messages && m !in r.messages;
      }
    }
  }

  /** Everything but the author's messages under the ids. */
  function Others(ids: seq<MsgId>, author: UserId): Msg -> bool {
    (m: Msg) => !(m.id in ids && m.sender == author)
  }

  lemma {:induction false} LeftByAuthor(db: Db, ids: seq<MsgId>, author: UserId)
    requires DbOk(db)
    ensures DeleteByAuthor(db, ids, author).messages == Filter(db.messages, Others(ids, author))
  {
    hide DbOk, Filter, DeleteOneByAuthor;
    if ids == [] {
      FilterAll(db.messages, Others(ids, author));
    } else {
      var init, last := ids[..|ids| - 1], ids[|ids| - 1];
      assert ids == init + [last];
      LeftByAuthor(db, init, author);
      DeleteByAuthorKeeps(db, init, author);
      DeleteOneExactly(DeleteByAuthor(db, init, author), last, author);
      FilterTwice(db.messages, Others(init, author), Others([last], author), Others(ids, author));
    }
  }

  lemma DeleteOneExactly(db: Db, id: MsgId, author: UserId)
    requires DbOk(db)
    ensures DeleteOneByAuthor(db, id, author).messages == Filter(db.messages, Others([id], author))
  {
    hide Filter, MessengerDbs.PositionOf;
    var ms, i := db.messages, MessengerDbs.PositionOf(db.messages, id);
    OnlyOne(db, id);
    if i < |ms| && ms[i].sender == author {
      assert ms == ms[..i] + [ms[i]] + ms[i + 1..];
      FilterPush(ms[..i], ms[i], Others([id], author));
      FilterAppend(ms[..i] + [ms[i]], ms[i + 1..], Others([id], author));
      FilterAll(ms[..i], Others([id], author));
      FilterAll(ms[i + 1..], Others([id], author));
    } else {
      FilterAll(ms, Others([id], author));
    }
  }

  /** Reported are exactly the ids under which the author had a message. */
  lemma {:induction false} ReportedByAuthor(db: Db, ids: seq<MsgId>, author: UserId, id: MsgId)
    requires DbOk(db)
    ensures id in DeletedByAuthor(db, ids, author) <==>
              id in ids && exists m :: m in db.messages && m.id == id && m.sender == author
  {
    hide DbOk, DeleteByAuthor, MessengerDbs.PositionOf;
    if ids != [] {
      var init, last := ids[..|ids| - 1], ids[|ids| - 1];
      assert ids == init + [last];
      var mid := DeleteByAuthor(db, init, author);
      ReportedByAuthor(db, init, author, id);
      DeleteByAuthorKeeps(db, init, author);
      AuthorHolds(mid, last, author);
    }
  }

  lemma AuthorHolds(db: Db, id: MsgId, author: UserId)
    requires DbOk(db)
    ensures var i := MessengerDbs.PositionOf(db.messages, id);
            i < |db.messages| && db.messages[i].sender == author <==>
              exists m :: m in db.messages && m.id == id && m.sender == author
  {
    hide MessengerDbs.PositionOf;
    OnlyOne(db, id);
    if m :| m in db.messages && m.id == id && m.sender == author {
      var k :| 0 <= k < |db.messages| && db.messages[k] == m;
    }
  }

  /** Remembered as deleted are exactly those as well. */
  lemma {:induction false} RememberedByAuthor(db: Db, ids: seq<MsgId>, author: UserId, id: MsgId)
    ensures id in DeleteByAuthor(db, ids, author).deleted <==>
              id in db.deleted || id in DeletedByAuthor(db, ids, author)
    ensures DeleteByAuthor(db, ids, author).pending == db.pending
  {
    hide MessengerDbs.PositionOf;
    if ids != [] {
      RememberedByAuthor(db, ids[..|ids| - 1], author, id);
    }
  }

  /** The author's messages under the ids go, they and no others are remembered, and reported. */
  lemma DeleteByAuthorExactly(db: Db, ids: seq<MsgId>, author: UserId)
    requires DbOk(db)
    ensures var r := DeleteByAuthor(db, ids, author);
            && Left(db, r, (m: Msg) => !(m.id in ids && m.sender == author)) && r.pending == db.pending
            && (forall id :: id in r.deleted <==> id in db.deleted || id in DeletedByAuthor(db, ids, author))
            && (forall id :: id in DeletedByAuthor(db, ids, author) <==>
                  id in ids && exists m :: m in db.messages && m.id == id && m.sender == author)
  {
    hide DeleteByAuthor, DeletedByAuthor, Filter, DbOk;
    LeftByAuthor(db, ids, author);
    FilterSame(db.messages, Others(ids, author), (m: Msg) => !(m.id in ids && m.sender == author));
    forall id
      ensures id in DeletedByAuthor(db, ids, author) <==>
                id in ids && exists m :: m in db.messages && m.id == id && m.sender == author
      ensures id in DeleteByAuthor(db, ids, author).deleted <==>
                id in db.deleted || id in DeletedByAuthor(db, ids, author)
    {
      ReportedByAuthor(db, ids, author, id);
      RememberedByAuthor(db, ids, author, id);
    }
    RememberedByAuthor(db, ids, author, "");
  }

  // ----- an envelope -----

  /** Meant for this user, no echo of its own, from nobody blocked, and neither replayed nor stale. */
  ghost predicate Taken(n: Node, me: UserId, e: Envelope, hash: Replay.Hash, now: nat) {
    && e.recipient == me && e.sender !in n.blocked
    && !(e.sender == me && exists m :: m in n.db.messages && m.timestamp == e.timestamp)
    && Replay.Check(n.seen, hash, e.signature, e.timestamp, now).1
  }

  /** A receipt signed by the sender, a read receipt of the sender, a tombstone signed by it for this user. */
  ghost predicate Acknowledges(e: Envelope) {
    e.payload.receipt.Some? && e.payload.receipt.value.signer == e.sender
  }

  ghost predicate SaysRead(e: Envelope) {
    !Acknowledges(e) && e.payload.extras.readReceipt == Some(e.sender)
  }

  ghost predicate Deletes(me: UserId, e: Envelope) {
    && !Acknowledges(e) && !SaysRead(e)
    && e.payload.tombstone.Some? && e.payload.tombstone.value.recipient == me
    && e.payload.tombstone.value.signer == e.sender
  }

  /** A call signal, call audio, or a reaction of one to four characters. */
  ghost predicate IsLive(me: UserId, e: Envelope) {
    var x := e.payload.extras;
    && !Acknowledges(e) && !SaysRead(e) && !Deletes(me, e)
    && (x.call || x.audio || (x.reaction.Some? && 1 <= |x.reaction.value| <= 4))
  }

  ghost predicate Corrects(me: UserId, e: Envelope) {
    && !Acknowledges(e) && !SaysRead(e) && !Deletes(me, e) && !IsLive(me, e)
    && e.payload.extras.edited && e.payload.id != ""
  }

  ghost predicate IsText(me: UserId, e: Envelope) {
    !Acknowledges(e) && !SaysRead(e) && !Deletes(me, e) && !IsLive(me, e) && !Corrects(me, e)
  }

  /** What is not taken leaves no trace but, perhaps, in the replay cache. */
  lemma RefusedExactly(n: Node, me: UserId, e: Envelope, hash: Replay.Hash, now: nat)
    requires !Taken(n, me, e, hash, now)
    ensures var r := HandleEnvelope(n, me, e, hash, now);
            r.ack == None && r.node == n.(seen := r.node.seen)
    ensures e.recipient != me || e.sender in n.blocked ==> HandleEnvelope(n, me, e, hash, now).node == n
  {
    hide HandlePayload, Replay.Check;
    EchoMeans(n.db, me, e);
  }

  lemma EchoMeans(db: Db, me: UserId, e: Envelope)
    ensures SelfEcho(db, me, e) <==> e.sender == me && exists m :: m in db.messages && m.timestamp == e.timestamp
  {
    if m :| m in db.messages && m.timestamp == e.timestamp {
      var i :| 0 <= i < |db.messages| && db.messages[i] == m;
    }
  }

  lemma TakenIsHandled(n: Node, me: UserId, e: Envelope, hash: Replay.Hash, now: nat)
    requires Taken(n, me, e, hash, now)
    ensures HandleEnvelope(n, me, e, hash, now)
         == HandlePayload(n.(seen := Replay.Check(n.seen, hash, e.signature, e.timestamp, now).0), me, e)
  {
    hide HandlePayload, Replay.Check;
    EchoMeans(n.db, me, e);
  }

  /** The sender's own signed receipt marks what was sent to it, and only that, and ends the retries. */
  lemma ReceiptExactly(n: Node, me: UserId, e: Envelope, hash: Replay.Hash, now: nat)
    requires Taken(n, me, e, hash, now) && Acknowledges(e) && DbOk(n.db)
    ensures var r, id := HandleEnvelope(n, me, e, hash, now), e.payload.receipt.value.messageId;
            && r.ack == None && r.node == n.(seen := r.node.seen, db := r.node.db, outbox := r.node.outbox)
            && if exists m :: m in n.db.messages && m.id == id && m.recipient == e.sender && !m.incoming
               then Changed(n.db, r.node.db, (m: Msg) => if m.id == id then m.(delivered := true) else m)
                 && FirstGone(n.outbox, r.node.outbox, id)
               else r.node.db == n.db && r.node.outbox == n.outbox
  {
    hide Replay.Check, MarkDelivered, Outbox.Delivered, Changed, FirstGone, DbOk;
    var id := e.payload.receipt.value.messageId;
    TakenIsHandled(n, me, e, hash, now);
    AwaitsMeans(n.db, id, e.sender);
    MarkDeliveredExactly(n.db, id);
    DeliveredExactly(n.outbox, id);
  }

  lemma AwaitsMeans(db: Db, id: MsgId, from: UserId)
    ensures AwaitsReceipt(db, id, from) <==>
              exists m :: m in db.messages && m.id == id && m.recipient == from && !m.incoming
  {
    if m :| m in db.messages && m.id == id && m.recipient == from && !m.incoming {
      var i :| 0 <= i < |db.messages| && db.messages[i] == m;
    }
  }

  /** The first message with the id has left the queue, if there is one. */
  ghost predicate FirstGone(before: Outbox.Queue, after: Outbox.Queue, id: string) {
    if exists q :: q in before && q.id == id then
      exists i :: 0 <= i < |before| && before[i].id == id && (forall k :: 0 <= k < i ==> before[k].id != id)
        && after == before[..i] + before[i + 1..]
    else after == before
  }

  lemma DeliveredExactly(q: Outbox.Queue, id: string)
    ensures FirstGone(q, Outbox.Delivered(q, id), id)
  {
    if m :| m in q && m.id == id {
      var k :| 0 <= k < |q| && q[k] == m;
      var i := Outbox.PositionOf(q, id);
      assert i <= k;
    }
  }

  /** Read receipts, calls and valid reactions change nothing here and are not acknowledged. */
  lemma LiveExactly(n: Node, me: UserId, e: Envelope, hash: Replay.Hash, now: nat)
    requires Taken(n, me, e, hash, now) && (SaysRead(e) || IsLive(me, e))
    ensures var r := HandleEnvelope(n, me, e, hash, now);
            r.ack == None && r.node == n.(seen := r.node.seen)
  {
    hide Replay.Check;
    TakenIsHandled(n, me, e, hash, now);
  }

  /**
   A tombstone deletes its author's messages under its ids and nothing else, blocks those ids, and
   is not acknowledged.
   */
  lemma TombstoneExactly(n: Node, me: UserId, e: Envelope, hash: Replay.Hash, now: nat)
    requires Taken(n, me, e, hash, now) && Deletes(me, e) && DbOk(n.db)
    ensures var r, ids := HandleEnvelope(n, me, e, hash, now), e.payload.tombstone.value.ids;
            && r.ack == None && r.node == n.(seen := r.node.seen, db := r.node.db)
            && Left(n.db, r.node.db, (m: Msg) => !(m.id in ids && m.sender == e.sender))
            && (forall a, id :: (a, id) in r.node.db.pending <==>
                  (a, id) in n.db.pending || (a == e.sender && id in ids))
            && (forall id :: id in r.node.db.deleted <==>
                  id in n.db.deleted || exists m :: m in n.db.messages && m !in r.node.db.messages && m.id == id)
  {
    hide Replay.Check, DeleteByAuthor, DeletedByAuthor;
    var ids := e.payload.tombstone.value.ids;
    TakenIsHandled(n, me, e, hash, now);
    DeleteByAuthorExactly(n.db, ids, e.sender);
    var r := HandleEnvelope(n, me, e, hash, now).node.db;
    forall id ensures id in r.deleted <==>
        id in n.db.deleted || exists m :: m in n.db.messages && m !in r.messages && m.id == id
    {
      if id in DeletedByAuthor(n.db, ids, e.sender) {
        var m :| m in n.db.messages && m.id == id && m.sender == e.sender;
        assert m !in r.messages;
      }
    }
  }

  /** An edit changes the text of its author's message under the id, and nothing else. */
  lemma EditExactly(n: Node, me: UserId, e: Envelope, hash: Replay.Hash, now: nat)
    requires Taken(n, me, e, hash, now) && Corrects(me, e) && DbOk(n.db)
    ensures var r, p := HandleEnvelope(n, me, e, hash, now), e.payload;
            && r.ack == None && r.node == n.(seen := r.node.seen, db := r.node.db)
            && Changed(n.db, r.node.db,
                       (m: Msg) => if m.id == p.id && m.sender == e.sender then m.(text := p.text) else m)
  {
    hide Replay.Check, EditByAuthor, Changed;
    TakenIsHandled(n, me, e, hash, now);
    EditByAuthorExactly(n.db, e.payload.id, e.payload.text, e.sender);
  }

  /**
   Anything else is a text. Unless its author has deleted the id, it is stored as received and
   delivered, acknowledged to its sender, and announced if the id was not there before.
   */
  lemma TextExactly(n: Node, me: UserId, e: Envelope, hash: Replay.Hash, now: nat)
    requires Taken(n, me, e, hash, now) && IsText(me, e) && DbOk(n.db)
    ensures var r := HandleEnvelope(n, me, e, hash, now);
            var id := if e.payload.id != "" then e.payload.id else Decimal(e.timestamp) + "_" + e.sender;
            var m := Msg(id, e.sender, me, e.payload.text, e.payload.group, e.timestamp, true, true);
            && r.node == n.(seen := r.node.seen, db := r.node.db, raised := r.node.raised)
            && if id in n.db.deleted || (e.sender, id) in n.db.pending
               then r.ack == None && r.node.db == n.db && r.node.raised == n.raised
               else
                 && r.ack == Some((e.sender, id))
                 && (forall x :: x in r.node.db.messages <==> x == m || (x in n.db.messages && x.id != id))
                 && r.node.db.deleted == n.db.deleted && r.node.db.pending == n.db.pending
                 && (r.node.raised
                     == n.raised + if exists x :: x in n.db.messages && x.id == id then [] else [id])
  {
    hide Replay.Check, Add, Decimal;
    var id := EffectiveId(e);
    var m := Incoming(me, e.sender, id, e.payload.text, e.payload.group, e.timestamp);
    TakenIsHandled(n, me, e, hash, now);
    AddExactly(n.db, m);
    AddKeeps(n.db, m);
    HasMeans(n.db.messages, id);
  }

  lemma HasMeans(ms: seq<Msg>, id: MsgId)
    ensures Has(ms, id) <==> exists m :: m in ms && m.id == id
  {
    if m :| m in ms && m.id == id {
      var i :| 0 <= i < |ms| && ms[i] == m;
    }
  }

  function DigitAt(s: string, i: nat): nat
    requires i < |s|
  {
    if '0' <= s[i] <= '9' then s[i] as nat - '0' as nat else 0
  }

  /** The number a text of digits stands for. */
  function Number(s: string): nat {
    if s == "" then 0 else 10 * Number(s[..|s| - 1]) + DigitAt(s, |s| - 1)
  }

  lemma OneDigit(n: nat)
    requires n < 10
    ensures Number(Decimal(n)) == n && |Decimal(n)| == 1 && '0' <= Decimal(n)[0] <= '9'
    ensures Decimal(n)[0] == '0' ==> n == 0
  {
    assert Decimal(n)[..0] == "";
  }

  /** Time stamps are written in decimal digits, without leading zeros. */
  lemma {:induction false} DecimalIsTheNumber(n: nat)
    ensures forall i :: 0 <= i < |Decimal(n)| ==> '0' <= Decimal(n)[i] <= '9'
    ensures Number(Decimal(n)) == n && Decimal(n) != "" && (Decimal(n)[0] == '0' ==> n == 0)
  {
    if n < 10 {
      OneDigit(n);
    } else {
      DecimalIsTheNumber(n / 10);
      OneDigit(n % 10);
      MoreDigits(n);
    }
  }

  lemma MoreDigits(n: nat)
    requires n >= 10
    ensures Decimal(n) == Decimal(n / 10) + Decimal(n % 10) && |Decimal(n % 10)| == 1
    ensures Number(Decimal(n)) == 10 * Number(Decimal(n / 10)) + Number(Decimal(n % 10))
  {
    assert Decimal(n)[..|Decimal(n)| - 1] == Decimal(n / 10);
    assert Decimal(n % 10)[..0] == "";
  }

  // ----- sending -----

  /** What a send does to store and outbox, case by case. */
  lemma SendExactly(n: Node, me: UserId, to: UserId, id: MsgId, text: string, timestamp: nat, attempt: Attempt,
                    now: nat)
    requires DbOk(n.db)
    ensures var r := SendText(n, me, to, id, text, timestamp, attempt, now);
            var own := to == "self_saved_messages" || to == me;
            var m := Msg(id, me, to, text, None, timestamp, false, own);
            if to in n.blocked || (!own && attempt.Refused?) then r == n
            else
              && r == n.(db := r.db, outbox := r.outbox)
              && r.db.deleted == n.db.deleted && r.db.pending == n.db.pending
              && (id in n.db.deleted ==> r.db == n.db)
              && (id !in n.db.deleted ==>
                    forall x :: x in r.db.messages <==> x == m || (x in n.db.messages && x.id != id))
              && Queues(n.outbox, r.outbox, own, id, to, text, if attempt.Accepted? then now + 8 else now)
  {
    hide Add;
    AddExactly(n.db, Outgoing(me, to, id, text, timestamp));
    ContainsMeans(n.outbox, id);
  }

  /** A note to oneself is not queued, nor is an id queued already, nor anything into a full queue. */
  ghost predicate Queues(before: Outbox.Queue, after: Outbox.Queue, own: bool, id: MsgId, to: UserId, text: string,
                         at: nat) {
    if own || (exists q :: q in before && q.id == id) || |before| >= 100 then after == before
    else after == before + [Outbox.Queued(id, to, text, 0, Outbox.Sending, at)]
  }

  lemma ContainsMeans(q: Outbox.Queue, id: string)
    ensures Outbox.Contains(q, id) <==> exists m :: m in q && m.id == id
  {
    if m :| m in q && m.id == id {
      var i :| 0 <= i < |q| && q[i] == m;
    }
  }

  // ----- starting -----

  /** An own message to a peer that has not been acknowledged. */
  function Unsent(me: UserId): Msg -> bool {
    (m: Msg) => !m.incoming && !m.delivered && m.recipient != "self_saved_messages" && m.recipient != me
  }

  function AsQueued(ms: seq<Msg>, now: nat): Outbox.Queue {
    seq(|ms|, i requires 0 <= i < |ms| =>
      Outbox.Queued(ms[i].id, ms[i].recipient, ms[i].text, 0, Outbox.Sending, now))
  }

  function UpTo100(ms: seq<Msg>): seq<Msg> {
    if |ms| <= 100 then ms else ms[..100]
  }

  /**
   At start the outbox holds exactly the unacknowledged messages to peers, in order, the first
   hundred of them, as never tried and due at once.
   */
  lemma {:induction false} RefillExactly(me: UserId, ms: seq<Msg>, now: nat)
    requires DistinctMessages(ms)
    ensures Refill(me, ms, now) == AsQueued(UpTo100(Filter(ms, Unsent(me))), now)
  {
    hide Outbox.Push, Filter;
    FilterNone(Unsent(me));
    if ms != [] {
      var init, last := ms[..|ms| - 1], ms[|ms| - 1];
      assert ms == init + [last];
      RefillExactly(me, init, now);
      FilterPush(init, last, Unsent(me));
      var kept := Filter(init, Unsent(me));
      if Unsent(me)(last) {
        PushUnseen(UpTo100(kept), init, last, now);
      } else {
        assert kept + [] == kept;
      }
    }
  }

  lemma PushUnseen(kept: seq<Msg>, init: seq<Msg>, last: Msg, now: nat)
    requires |kept| <= 100 && forall m :: m in kept ==> m in init
    requires DistinctMessages(init + [last])
    ensures Outbox.Push(AsQueued(kept, now), last.id, last.recipient, last.text, now)
         == if |kept| < 100 then AsQueued(kept + [last], now) else AsQueued(kept, now)
  {
    forall i | 0 <= i < |kept| ensures kept[i].id != last.id {
      assert kept[i] in init;
      var k :| 0 <= k < |init| && init[k] == kept[i];
      assert (init + [last])[k] == kept[i] && (init + [last])[|init|] == last;
    }
  }
}
