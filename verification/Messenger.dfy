/**
 One messenger: what it does to send a text, with an envelope from its mailbox, and at start
 (nodex-messenger/src/messenger.rs).
 Envelope cryptography is abstract: an envelope carries the identity whose key signed it, and
 a receipt or tombstone the identity whose signature it bears.
 */
module Messengers {
  import opened Bytes
  import opened MessengerDbs
  import Outbox
  import Replay

  datatype Receipt = Receipt(messageId: MsgId, signer: UserId)

  datatype SignedTombstone = SignedTombstone(recipient: UserId, ids: seq<MsgId>, signer: UserId)

  /**
   What else a payload may carry: a read receipt and who signed it, a call signal, call audio, a
   reaction with its emoji, the mark of an edit.
   */
  datatype Extras = Extras(readReceipt: Option<UserId>, call: bool, audio: bool, reaction: Option<string>, edited: bool)

  /** `is_valid_emoji`: not empty and of at most four characters. */
  predicate IsValidEmoji(emoji: string) {
    1 <= |emoji| <= 4
  }

  /** A reaction that is taken as one; any other is overlooked, and the payload read on. */
  predicate Reacts(x: Extras) {
    x.reaction.Some? && IsValidEmoji(x.reaction.value)
  }

  const NO_EXTRAS: Extras := Extras(None, false, false, None, false)

  datatype Payload = Payload(id: MsgId, text: string, group: Option<string>, receipt: Option<Receipt>,
                             tombstone: Option<SignedTombstone>, extras: Extras)

  datatype Envelope =
    Envelope(sender: UserId, recipient: UserId, timestamp: nat, signature: seq<byte>, payload: Payload)

  /** The state of one messenger; `raised` lists the ids for which MessageReceived was raised. */
  datatype Node = Node(
    db: Db,
    outbox: Outbox.Queue,
    inFlight: Option<(Outbox.Queued, nat)>,
    seen: Replay.Seen,
    blocked: set<UserId>,
    raised: seq<MsgId>)

  /** The new state and, if a text was stored, whom to acknowledge which id. */
  datatype Handled = Handled(node: Node, ack: Option<(UserId, MsgId)>)

  // ----- sending -----

  const SAVED_MESSAGES: UserId := "self_saved_messages"

  predicate ForSelf(user: UserId, to: UserId) {
    to == SAVED_MESSAGES || to == user
  }

  /** What became of the first delivery attempt; `Refused` covers a missing key or a block. */
  datatype Attempt = Accepted | Refused | Unreachable

  function Outgoing(me: UserId, to: UserId, id: MsgId, text: string, timestamp: nat): Msg {
    Msg(id, me, to, text, None, timestamp, false, ForSelf(me, to))
  }

  /** A text for a peer is recorded undelivered and queued, for eight seconds later if accepted. */
  function SendText(n: Node, me: UserId, to: UserId, id: MsgId, text: string, timestamp: nat,
                    attempt: Attempt, now: nat): Node
  {
    var recorded := Add(n.db, Outgoing(me, to, id, text, timestamp));
    if to in n.blocked then n
    else if ForSelf(me, to) then n.(db := recorded)
    else if attempt.Refused? then n
    else n.(db := recorded, outbox := Outbox.Push(n.outbox, id, to, text, if attempt.Accepted? then now + 8 else now))
  }

  predicate ToResend(me: UserId, m: Msg) {
    !m.incoming && !m.delivered && !ForSelf(me, m.recipient)
  }

  /** At start the outbox is refilled with the recorded messages not yet delivered. */
  function Refill(me: UserId, ms: seq<Msg>, now: nat): Outbox.Queue {
    if ms == [] then []
    else
      var q, m := Refill(me, ms[..|ms| - 1], now), ms[|ms| - 1];
      if ToResend(me, m) then Outbox.Push(q, m.id, m.recipient, m.text, now) else q
  }

  // ----- receiving -----

  function Decimal(n: nat): string {
    if n < 10 then ["0123456789"[n]] else Decimal(n / 10) + ["0123456789"[n % 10]]
  }

  /** A payload without an id is filed under the time stamp and the sender. */
  function EffectiveId(e: Envelope): MsgId {
    if e.payload.id != "" then e.payload.id else Decimal(e.timestamp) + "_" + e.sender
  }

  predicate SelfEcho(db: Db, me: UserId, e: Envelope) {
    e.sender == me && exists i :: 0 <= i < |db.messages| && db.messages[i].timestamp == e.timestamp
  }

  predicate AwaitsReceipt(db: Db, id: MsgId, from: UserId) {
    exists i :: 0 <= i < |db.messages|
      && db.messages[i].id == id && db.messages[i].recipient == from && !db.messages[i].incoming
  }

  function HandleReceipt(n: Node, from: UserId, id: MsgId): Node {
    if AwaitsReceipt(n.db, id, from) then
      n.(db := MarkDelivered(n.db, id), outbox := Outbox.Delivered(n.outbox, id))
    else n
  }

  function HandleChat(n: Node, me: UserId, e: Envelope): Handled {
    var m := Incoming(me, e.sender, EffectiveId(e), e.payload.text, e.payload.group, e.timestamp);
    var r := HandleText(n.db, m);
    Handled(n.(db := r.db, raised := if r.isNew then n.raised + [m.id] else n.raised),
            if r.shouldAck then Some((e.sender, m.id)) else None)
  }

  /**
   A receipt counts if its sender signed it, a tombstone if also addressed to this user. Calls,
   audio and valid reactions leave the fields modelled here alone, but are no texts.
   */
  function HandlePayload(n: Node, me: UserId, e: Envelope): Handled {
    var p, x := e.payload, e.payload.extras;
    if p.receipt.Some? && p.receipt.value.signer == e.sender then
      Handled(HandleReceipt(n, e.sender, p.receipt.value.messageId), None)
    else if x.readReceipt == Some(e.sender) then Handled(n, None)
    else if p.tombstone.Some? && p.tombstone.value.recipient == me && p.tombstone.value.signer == e.sender then
      Handled(n.(db := HandleTombstone(n.db, e.sender, p.tombstone.value.ids)), None)
    else if x.call || x.audio || Reacts(x) then Handled(n, None)
    else if x.edited && p.id != "" then Handled(n.(db := EditByAuthor(n.db, p.id, p.text, e.sender)), None)
    else HandleChat(n, me, e)
  }

  /** Envelopes for others, echoes, blocked senders and replays have no effect on the messages. */
  function HandleEnvelope(n: Node, me: UserId, e: Envelope, hash: Replay.Hash, now: nat): Handled {
    if e.recipient != me || SelfEcho(n.db, me, e) || e.sender in n.blocked then Handled(n, None)
    else
      var (seen, accepted) := Replay.Check(n.seen, hash, e.signature, e.timestamp, now);
      if accepted then HandlePayload(n.(seen := seen), me, e) else Handled(n.(seen := seen), None)
  }

  /** The messenger as an object over its database, outbox and replay cache. */
  class Messenger {
    const me: UserId
    const db: MessengerDb
    const outbox: Outbox.MessageQueue
    const replayCache: Replay.ReplayProtectionCache
    var blocked: set<UserId>
    var raised: seq<MsgId>

    function View(inFlight: Option<(Outbox.Queued, nat)>): Node
      reads this, db, outbox, replayCache
    {
      Node(db.View(), outbox.queue, inFlight, replayCache.seenHashes, blocked, raised)
    }

    constructor (me: UserId)
      ensures this.me == me && fresh(db) && fresh(outbox) && fresh(replayCache)
      ensures View(None) == Node(EMPTY_DB, [], None, map[], {}, [])
    {
      this.me := me;
      db := new MessengerDb();
      outbox := new Outbox.MessageQueue();
      replayCache := new Replay.ReplayProtectionCache();
      blocked, raised := {}, [];
    }

    /** A start on a stored database. */
    constructor FromDb(me: UserId, db: MessengerDb, blocked: set<UserId>, now: nat)
      ensures this.me == me && this.db == db && fresh(outbox) && fresh(replayCache)
      ensures View(None) == Node(db.View(), Refill(me, db.messages, now), None, map[], blocked, [])
    {
      this.me, this.db, this.blocked, raised := me, db, blocked, [];
      outbox := new Outbox.MessageQueue();
      replayCache := new Replay.ReplayProtectionCache();
      new;
      for i := 0 to |db.messages|
        invariant fresh(outbox) && fresh(replayCache) && replayCache.seenHashes == map[]
        invariant this.me == me && this.db == db && this.blocked == blocked && raised == []
        invariant outbox.queue == Refill(me, db.messages[..i], now)
      {
        assert db.messages[..i + 1][..i] == db.messages[..i];
        var message := db.messages[i];
        if !message.incoming && !message.delivered && message.recipient != SAVED_MESSAGES && message.recipient != me {
          outbox.PushAfter(message.id, message.recipient, message.text, 0, now);
        }
      }
      assert db.messages[..|db.messages|] == db.messages;
    }

    method SendMessage(to: UserId, id: MsgId, text: string, timestamp: nat, attempt: Attempt, now: nat,
                       ghost inFlight: Option<(Outbox.Queued, nat)>)
      returns (ok: bool)
      modifies this, db, outbox
      ensures View(inFlight) == SendText(old(View(inFlight)), me, to, id, text, timestamp, attempt, now)
      ensures ok <==> to !in blocked && (ForSelf(me, to) || !attempt.Refused?)
    {
      hide Add, Outbox.Push;
      if to in blocked {
        return false;
      }
      if to == SAVED_MESSAGES || to == me {
        db.AddMessage(Msg(id, me, to, text, None, timestamp, false, true));
        return true;
      }
      var chatMsg := Msg(id, me, to, text, None, timestamp, false, false);
      match attempt {
        case Accepted =>
          outbox.PushAfter(id, to, text, 8, now);
          db.AddMessage(chatMsg);
          return true;
        case Refused =>
          return false;
        case Unreachable =>
          db.AddMessage(chatMsg);
          outbox.PushAfter(id, to, text, 0, now);
          return true;
      }
    }

    method ReceiveEnvelope(e: Envelope, hash: Replay.Hash, now: nat, ghost inFlight: Option<(Outbox.Queued, nat)>)
      returns (ack: Option<(UserId, MsgId)>)
      modifies this, db, outbox, replayCache
      ensures Handled(View(inFlight), ack) == HandleEnvelope(old(View(inFlight)), me, e, hash, now)
    {
      hide HandlePayload, Replay.Check;
      if e.recipient != me {
        return None;
      }
      if e.sender == me && SelfEcho(db.View(), me, e) {
        return None;
      }
      if e.sender in blocked {
        return None;
      }
      var accepted := replayCache.CheckAndInsert(hash, e.signature, e.timestamp, now);
      if !accepted {
        return None;
      }
      ack := ReceivePayload(e, inFlight);
    }

    method ReceivePayload(e: Envelope, ghost inFlight: Option<(Outbox.Queued, nat)>)
      returns (ack: Option<(UserId, MsgId)>)
      modifies this, db, outbox
      ensures Handled(View(inFlight), ack) == HandlePayload(old(View(inFlight)), me, e)
    {
      hide HandleTombstone, EditByAuthor, HandleText, HandleReceipt, Decimal;
      var p, extras := e.payload, e.payload.extras;
      ack := None;
      if p.receipt.Some? && p.receipt.value.signer == e.sender {
        ReceiveReceipt(e.sender, p.receipt.value.messageId, inFlight);
      } else if extras.readReceipt == Some(e.sender) {
        return None;
      } else if p.tombstone.Some? && p.tombstone.value.recipient == me && p.tombstone.value.signer == e.sender {
        ReceiveTombstone(e.sender, p.tombstone.value.ids);
      } else if extras.call || extras.audio || Reacts(extras) {
        return None;
      } else if extras.edited && p.id != "" {
        var _ := db.EditMessageByAuthor(p.id, p.text, e.sender);
      } else {
        ack := ReceiveText(Incoming(me, e.sender, EffectiveId(e), p.text, p.group, e.timestamp));
      }
    }

    method ReceiveReceipt(from: UserId, id: MsgId, ghost inFlight: Option<(Outbox.Queued, nat)>)
      modifies db, outbox
      ensures View(inFlight) == HandleReceipt(old(View(inFlight)), from, id)
    {
      hide MarkDelivered, Outbox.Delivered;
      if AwaitsReceipt(db.View(), id, from) {
        db.MarkMessageDelivered(id);
        outbox.MarkDelivered(id);
      }
    }

    method ReceiveTombstone(author: UserId, ids: seq<MsgId>)
      modifies db
      ensures db.View() == HandleTombstone(old(db.View()), author, ids)
    {
      hide DeleteByAuthor;
      var _ := db.DeleteMessagesByAuthor(ids, author);
      db.RegisterPendingTombstones(author, ids);
    }

    method ReceiveText(m: Msg) returns (ack: Option<(UserId, MsgId)>)
      modifies this, db
      ensures var r := HandleText(old(db.View()), m);
              && db.View() == r.db && blocked == old(blocked)
              && raised == old(raised) + (if r.isNew then [m.id] else [])
              && ack == if r.shouldAck then Some((m.sender, m.id)) else None
    {
      hide Add;
      if IsTombstoned(db.View(), m.sender, m.id) {
        return None;
      }
      var before := |db.messages|;
      db.AddMessage(m);
      if |db.messages| > before {
        raised := raised + [m.id];
      }
      return Some((m.sender, m.id));
    }
  }
}
