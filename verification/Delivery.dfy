/**
 Message delivery as a protocol between messengers (nodex-messenger/src/messenger.rs) over a
 network that loses, duplicates and reorders, with dishonest users who send what they like
 under their own identity. Every transition is one step; a step that is not enabled does
 nothing. Not steps are: files, voice notes and group messages sent by honest users, edits they
 send to themselves, wiping a messenger's data, and restoring another identity from its phrase.
 */
module Delivery {
  import opened Bytes
  import opened MessengerDbs
  import opened Messengers
  import Outbox
  import Replay

  /** Who, whose message, which id. */
  type Facts = set<(UserId, UserId, MsgId)>

  datatype Send = Send(from: UserId, to: UserId, id: MsgId, text: string)

  /**
   The network is the set of all envelopes ever created: any of them may be delivered any
   number of times or never. `issued` and `stored` only record history: which texts users wrote
   for whom under which id, and which recipient stored which id from which sender.
   */
  datatype World = World(
    nodes: map<UserId, Node>,
    wire: set<Envelope>,
    toQueue: set<Send>,
    toRecord: set<Send>,
    acks: Facts,
    issued: set<Send>,
    stored: Facts)

  datatype Step =
    | StartSend(send: Send, timestamp: nat, signature: seq<byte>)
    | QueueSend(send: Send, retryAt: nat)
    | RecordSend(send: Send, timestamp: nat)
    | SelfNote(user: UserId, to: UserId, id: MsgId, text: string, timestamp: nat)
    | Work(user: UserId, now: nat, signature: seq<byte>)
    | Reschedule(user: UserId)
    | Deliver(user: UserId, envelope: Envelope, now: nat)
    | Acknowledge(user: UserId, to: UserId, id: MsgId, timestamp: nat, signature: seq<byte>)
    | DropAck(user: UserId, to: UserId, id: MsgId)
    | DeleteLocally(user: UserId, ids: seq<MsgId>)
    | DeleteForEveryone(user: UserId, to: UserId, ids: seq<MsgId>, timestamp: nat, signature: seq<byte>)
    | ClearChat(user: UserId, contact: UserId)
    | SetBlocked(user: UserId, blocked: set<UserId>)
    | Restart(user: UserId, now: nat)
    | React(user: UserId, to: UserId, id: MsgId, emoji: string, timestamp: nat, signature: seq<byte>)
    | Signal(user: UserId, to: UserId, id: MsgId, text: string, timestamp: nat, signature: seq<byte>)
    | Edit(user: UserId, to: UserId, id: MsgId, text: string, timestamp: nat, signature: seq<byte>)
    | Inject(envelope: Envelope)

  function TextPayload(id: MsgId, text: string): Payload {
    Payload(id, text, None, None, None, NO_EXTRAS)
  }

  function ReceiptPayload(id: MsgId, signer: UserId): Payload {
    Payload("rcpt_" + id, "", None, Some(Receipt(id, signer)), None, NO_EXTRAS)
  }

  function TombstonePayload(to: UserId, ids: seq<MsgId>, signer: UserId): Payload {
    Payload("", "", None, None, Some(SignedTombstone(to, ids, signer)), NO_EXTRAS)
  }

  /** A reaction travels under an id and with a text of its own. */
  function ReactionPayload(id: MsgId, emoji: string): Payload {
    Payload("react_" + id, emoji, None, None, None, NO_EXTRAS.(reaction := Some(emoji)))
  }

  function CallPayload(id: MsgId, text: string): Payload {
    Payload(id, text, None, None, None, NO_EXTRAS.(call := true))
  }

  function EditPayload(id: MsgId, text: string): Payload {
    Payload(id, text, None, None, None, NO_EXTRAS.(edited := true))
  }

  predicate Enabled(w: World, step: Step) {
    match step
    case StartSend(s, _, _) =>
      s.from in w.nodes && s.to !in w.nodes[s.from].blocked && !ForSelf(s.from, s.to) && s.id != ""
    case QueueSend(s, _) => s in w.toQueue && s.from in w.nodes
    case RecordSend(s, _) => s in w.toRecord && s.from in w.nodes
    case SelfNote(user, to, _, _, _) => user in w.nodes && ForSelf(user, to)
    case Work(user, now, _) =>
      user in w.nodes && w.nodes[user].inFlight.None? && Outbox.Pop(w.nodes[user].outbox, now).1.Some?
    case Reschedule(user) => user in w.nodes && w.nodes[user].inFlight.Some?
    case Deliver(user, e, _) => user in w.nodes && e in w.wire
    case Acknowledge(user, to, id, _, _) => (user, to, id) in w.acks
    case DropAck(user, to, id) => true
    case DeleteLocally(user, _) => user in w.nodes
    case DeleteForEveryone(user, _, _, _, _) => user in w.nodes
    case ClearChat(user, _) => user in w.nodes
    case SetBlocked(user, _) => user in w.nodes
    case Restart(user, now) => user in w.nodes
    case React(user, _, _, _, _, _) => user in w.nodes
    case Signal(user, _, _, _, _, _) => user in w.nodes
    case Edit(user, to, _, _, _, _) => user in w.nodes && to != user
    case Inject(e) => e.sender !in w.nodes
  }

  function SetDb(w: World, user: UserId, db: Db): World
    requires user in w.nodes
  {
    w.(nodes := w.nodes[user := w.nodes[user].(db := db)])
  }

  function Next(w: World, step: Step, hash: Replay.Hash): World {
    if !Enabled(w, step) then w
    else
      match step
      case StartSend(s, timestamp, signature) =>
        w.(wire := w.wire + {Envelope(s.from, s.to, timestamp, signature, TextPayload(s.id, s.text))},
           toQueue := w.toQueue + {s}, toRecord := w.toRecord + {s}, issued := w.issued + {s})
      case QueueSend(s, retryAt) =>
        var n := w.nodes[s.from];
        w.(nodes := w.nodes[s.from := n.(outbox := Outbox.Push(n.outbox, s.id, s.to, s.text, retryAt))],
           toQueue := w.toQueue - {s})
      case RecordSend(s, timestamp) =>
        SetDb(w, s.from, Add(w.nodes[s.from].db, Outgoing(s.from, s.to, s.id, s.text, timestamp)))
          .(toRecord := w.toRecord - {s})
      case SelfNote(user, to, id, text, timestamp) =>
        SetDb(w, user, Add(w.nodes[user].db, Outgoing(user, to, id, text, timestamp)))
      case Work(user, now, signature) =>
        var n := w.nodes[user];
        var (q, item) := Outbox.Pop(n.outbox, now);
        var m := item.value;
        w.(nodes := w.nodes[user := n.(outbox := q, inFlight := Some((m, now)))],
           wire := w.wire + {Envelope(user, m.recipient, now, signature, TextPayload(m.id, m.text))})
      case Reschedule(user) =>
        var n := w.nodes[user];
        var (m, now) := n.inFlight.value;
        w.(nodes := w.nodes[user := n.(outbox := n.outbox + [Outbox.Rescheduled(m, now)], inFlight := None)])
      case Deliver(user, e, now) =>
        var h := HandleEnvelope(w.nodes[user], user, e, hash, now);
        var news := if h.ack.Some? then {(user, h.ack.value.0, h.ack.value.1)} else {};
        w.(nodes := w.nodes[user := h.node], acks := w.acks + news, stored := w.stored + news)
      case Acknowledge(user, to, id, timestamp, signature) =>
        w.(wire := w.wire + {Envelope(user, to, timestamp, signature, ReceiptPayload(id, user))},
           acks := w.acks - {(user, to, id)})
      case DropAck(user, to, id) => w.(acks := w.acks - {(user, to, id)})
      case DeleteLocally(user, ids) => SetDb(w, user, DeleteAll(w.nodes[user].db, ids))
      case DeleteForEveryone(user, to, ids, timestamp, signature) =>
        var deleted := DeletedByAuthor(w.nodes[user].db, ids, user);
        var sent := if deleted == [] then {}
                    else {Envelope(user, to, timestamp, signature, TombstonePayload(to, deleted, user))};
        SetDb(w, user, DeleteByAuthor(w.nodes[user].db, ids, user)).(wire := w.wire + sent)
      case ClearChat(user, contact) => SetDb(w, user, ClearFor(w.nodes[user].db, contact))
      case SetBlocked(user, blocked) => w.(nodes := w.nodes[user := w.nodes[user].(blocked := blocked)])
      case Restart(user, now) =>
        var n := w.nodes[user];
        w.(nodes := w.nodes[user := n.(outbox := Refill(user, n.db.messages, now), inFlight := None, seen := map[])],
           toQueue := (set s | s in w.toQueue && s.from != user),
           toRecord := (set s | s in w.toRecord && s.from != user),
           acks := (set a | a in w.acks && a.0 != user))
      case React(user, to, id, emoji, timestamp, signature) =>
        w.(wire := w.wire + {Envelope(user, to, timestamp, signature, ReactionPayload(id, emoji))},
           issued := w.issued + if IsValidEmoji(emoji) then {} else {Send(user, to, "react_" + id, emoji)})
      case Signal(user, to, id, text, timestamp, signature) =>
        w.(wire := w.wire + {Envelope(user, to, timestamp, signature, CallPayload(id, text))})
      case Edit(user, to, id, text, timestamp, signature) =>
        var e := Envelope(user, to, timestamp, signature, EditPayload(id, text));
        SetDb(w, user, EditText(w.nodes[user].db, id, text))
          .(wire := w.wire + {e},
            issued := w.issued + {Send(user, to, EffectiveId(e), text)} + Rewritten(w.nodes[user].db, id, text))
      case Inject(e) => w.(wire := w.wire + {e})
  }

  /** The text that a local edit puts in place of another, whoever wrote that. */
  function Rewritten(db: Db, id: MsgId, text: string): set<Send> {
    var i := PositionOf(db.messages, id);
    if id != "" && i < |db.messages| then {Send(db.messages[i].sender, db.messages[i].recipient, id, text)} else {}
  }

  function Run(w: World, steps: seq<Step>, hash: Replay.Hash): World
    decreases |steps|
  {
    if steps == [] then w else Run(Next(w, steps[0], hash), steps[1..], hash)
  }

  const NEW_NODE: Node := Node(EMPTY_DB, [], None, map[], {}, [])

  /** The honest users, each with a fresh messenger. */
  function Start(users: set<UserId>): World {
    World(map u | u in users :: NEW_NODE, {}, {}, {}, {}, {}, {})
  }

  lemma ThreeSteps(w: World, a: Step, b: Step, c: Step, hash: Replay.Hash)
    ensures Run(w, [a, b, c], hash) == Next(Next(Next(w, a, hash), b, hash), c, hash)
  {
    hide Next;
    assert [a, b, c][1..] == [b, c] && [b, c][1..] == [c];
    var v := Next(Next(w, a, hash), b, hash);
    assert Run(v, [c], hash) == Next(v, c, hash);
  }

  /** What `SendMessage` does to a peer's message is what its steps do. */
  lemma SendIsItsSteps(w: World, s: Send, timestamp: nat, signature: seq<byte>, now: nat, hash: Replay.Hash)
    requires Enabled(w, StartSend(s, timestamp, signature))
    ensures var steps := [StartSend(s, timestamp, signature), QueueSend(s, now + 8), RecordSend(s, timestamp)];
            var accepted := Run(w, steps, hash);
            && s.from in accepted.nodes
            && accepted.nodes[s.from] == SendText(w.nodes[s.from], s.from, s.to, s.id, s.text, timestamp, Accepted, now)
    ensures var steps := [StartSend(s, timestamp, signature), RecordSend(s, timestamp), QueueSend(s, now)];
            var unreachable := Run(w, steps, hash);
            && s.from in unreachable.nodes
            && unreachable.nodes[s.from]
            == SendText(w.nodes[s.from], s.from, s.to, s.id, s.text, timestamp, Unreachable, now)
  {
    hide Add, Outbox.Push, Run;
    ThreeSteps(w, StartSend(s, timestamp, signature), QueueSend(s, now + 8), RecordSend(s, timestamp), hash);
    ThreeSteps(w, StartSend(s, timestamp, signature), RecordSend(s, timestamp), QueueSend(s, now), hash);
  }

  // ----- the invariant -----

  ghost predicate MsgOk(me: UserId, honest: set<UserId>, issued: set<Send>, stored: Facts, m: Msg) {
    if m.incoming then m.recipient == me && (m.sender in honest ==> Send(m.sender, me, m.id, m.text) in issued)
    else
      && m.sender == me
      && (!ForSelf(me, m.recipient) ==> Send(me, m.recipient, m.id, m.text) in issued)
      && (m.delivered && m.recipient in honest && !ForSelf(me, m.recipient) ==> (m.recipient, me, m.id) in stored)
  }

  ghost predicate ItemOk(me: UserId, issued: set<Send>, q: Outbox.Queued) {
    Send(me, q.recipient, q.id, q.text) in issued && q.id != ""
  }

  ghost predicate Known(db: Db, id: MsgId) {
    Has(db.messages, id) || id in db.deleted
  }

  ghost predicate NodeOk(me: UserId, honest: set<UserId>, issued: set<Send>, stored: Facts, n: Node) {
    && DbOk(n.db)
    && (forall m :: m in n.db.messages ==> MsgOk(me, honest, issued, stored, m))
    && (forall q :: q in n.outbox ==> ItemOk(me, issued, q))
    && (n.inFlight.Some? ==> ItemOk(me, issued, n.inFlight.value.0))
    && (forall i, j :: 0 <= i < j < |n.raised| ==> n.raised[i] != n.raised[j])
    && (forall id :: id in n.raised ==> Known(n.db, id))
    && (forall m :: m in n.db.messages && m.incoming ==> (m.sender, m.id) !in n.db.pending)
  }

  /** What an honest user puts on the wire. */
  ghost predicate EnvelopeOk(issued: set<Send>, stored: Facts, e: Envelope) {
    || (e.payload == TextPayload(e.payload.id, e.payload.text) && e.payload.id != ""
        && Send(e.sender, e.recipient, e.payload.id, e.payload.text) in issued)
    || (exists id :: e.payload == ReceiptPayload(id, e.sender) && (e.sender, e.recipient, id) in stored)
    || (exists ids :: e.payload == TombstonePayload(e.recipient, ids, e.sender))
    || ExtraOk(issued, e)
  }

  /** A reaction with an invalid emoji and an edit without an id will be read as texts. */
  ghost predicate ExtraOk(issued: set<Send>, e: Envelope) {
    var p := e.payload;
    || (exists id :: p == ReactionPayload(id, p.text)
          && (IsValidEmoji(p.text) || Send(e.sender, e.recipient, p.id, p.text) in issued))
    || p == CallPayload(p.id, p.text)
    || (p == EditPayload(p.id, p.text) && e.sender != e.recipient
        && Send(e.sender, e.recipient, EffectiveId(e), p.text) in issued)
  }

  ghost predicate Inv(w: World) {
    && (forall u :: u in w.nodes ==> NodeOk(u, w.nodes.Keys, w.issued, w.stored, w.nodes[u]))
    && (forall e :: e in w.wire && e.sender in w.nodes ==> EnvelopeOk(w.issued, w.stored, e))
    && w.toQueue <= w.issued && w.toRecord <= w.issued && w.acks <= w.stored
    && (forall s :: s in w.issued ==> s.id != "")
  }

  lemma NodeMonotone(me: UserId, honest: set<UserId>, issued: set<Send>, stored: Facts,
                     issued': set<Send>, stored': Facts, n: Node)
    requires NodeOk(me, honest, issued, stored, n) && issued <= issued' && stored <= stored'
    ensures NodeOk(me, honest, issued', stored', n)
  {
    hide DbOk, Known, ForSelf;
  }

  lemma EnvelopeMonotone(issued: set<Send>, stored: Facts, issued': set<Send>, stored': Facts, e: Envelope)
    requires EnvelopeOk(issued, stored, e) && issued <= issued' && stored <= stored'
    ensures EnvelopeOk(issued', stored', e)
  {
    hide ReceiptPayload, TombstonePayload, TextPayload, ReactionPayload, CallPayload, EditPayload, EffectiveId;
  }

  /** History only grows, one node at most changes, and what is new on the wire is in order. */
  lemma InvAfter(w: World, v: World, user: UserId)
    requires Inv(w) && v.nodes.Keys == w.nodes.Keys
    requires w.issued <= v.issued && w.stored <= v.stored
    requires forall u :: u in w.nodes && u != user ==> v.nodes[u] == w.nodes[u]
    requires user in w.nodes ==> NodeOk(user, w.nodes.Keys, v.issued, v.stored, v.nodes[user])
    requires forall e :: e in v.wire && e !in w.wire && e.sender in w.nodes ==> EnvelopeOk(v.issued, v.stored, e)
    requires v.toQueue <= v.issued && v.toRecord <= v.issued && v.acks <= v.stored
    requires forall s :: s in v.issued ==> s.id != ""
    ensures Inv(v)
  {
    hide NodeOk, EnvelopeOk;
    forall u | u in v.nodes ensures NodeOk(u, v.nodes.Keys, v.issued, v.stored, v.nodes[u]) {
      if u != user {
        NodeMonotone(u, w.nodes.Keys, w.issued, w.stored, v.issued, v.stored, w.nodes[u]);
      }
    }
    forall e | e in v.wire && e.sender in v.nodes ensures EnvelopeOk(v.issued, v.stored, e) {
      if e in w.wire {
        EnvelopeMonotone(w.issued, w.stored, v.issued, v.stored, e);
      }
    }
  }

  // ----- one node -----

  lemma AddedMessageOk(me: UserId, honest: set<UserId>, issued: set<Send>, stored: Facts, n: Node, m: Msg)
    requires NodeOk(me, honest, issued, stored, n) && MsgOk(me, honest, issued, stored, m)
    requires m.incoming ==> (m.sender, m.id) !in n.db.pending
    ensures NodeOk(me, honest, issued, stored, n.(db := Add(n.db, m)))
  {
    hide Add, MsgOk, ItemOk;
    AddKeeps(n.db, m);
    SamePending(n.db, m);
    forall id | Known(n.db, id) ensures Known(Add(n.db, m), id) {
      KnownAfterAdd(n.db, m, id);
    }
  }

  lemma KnownAfterAdd(db: Db, m: Msg, id: MsgId)
    requires DbOk(db) && Known(db, id)
    ensures Known(Add(db, m), id)
  {
    hide Add;
    AddKeeps(db, m);
    SamePending(db, m);
    var after := Add(db, m).messages;
    if Has(db.messages, id) {
      var i :| 0 <= i < |db.messages| && db.messages[i].id == id;
      var x := if id == m.id && m.id !in db.deleted then m else db.messages[i];
      if x in after {
        var k :| 0 <= k < |after| && after[k] == x;
      }
    }
  }

  /** Deletions that remember what they remove keep the node in order. */
  lemma ShrunkNodeOk(me: UserId, honest: set<UserId>, issued: set<Send>, stored: Facts, n: Node, db: Db)
    requires NodeOk(me, honest, issued, stored, n) && DbOk(db)
    requires forall m :: m in db.messages ==> m in n.db.messages
    requires forall m :: m in n.db.messages && m !in db.messages ==> m.id in db.deleted
    requires n.db.deleted <= db.deleted
    requires forall m :: m in db.messages && m.incoming ==> (m.sender, m.id) !in db.pending
    ensures NodeOk(me, honest, issued, stored, n.(db := db))
  {
  }

  /** The receipt of an honest recipient proves that it stored the id. */
  lemma ReceiptKeeps(me: UserId, honest: set<UserId>, issued: set<Send>, stored: Facts,
                     n: Node, from: UserId, id: MsgId)
    requires NodeOk(me, honest, issued, stored, n)
    requires from in honest ==> (from, me, id) in stored
    ensures NodeOk(me, honest, issued, stored, HandleReceipt(n, from, id))
  {
    hide Known, ItemOk, ForSelf, PositionOf, Outbox.PositionOf;
    if AwaitsReceipt(n.db, id, from) {
      var i :| 0 <= i < |n.db.messages|
        && n.db.messages[i].id == id && n.db.messages[i].recipient == from && !n.db.messages[i].incoming;
      var p := PositionOf(n.db.messages, id);
      assert p == i;
      var db := MarkDelivered(n.db, id);
      forall m | m in db.messages ensures MsgOk(me, honest, issued, stored, m) && m.id !in db.deleted {
        var k :| 0 <= k < |db.messages| && db.messages[k] == m;
        assert n.db.messages[k] in n.db.messages;
      }
      forall x | Known(n.db, x) ensures Known(db, x) {
        KnownAfterMark(n.db, id, x);
      }
      DeliveredItems(n.outbox, id);
    }
  }

  lemma KnownAfterMark(db: Db, id: MsgId, x: MsgId)
    requires Known(db, x)
    ensures Known(MarkDelivered(db, id), x)
  {
    if Has(db.messages, x) {
      var i :| 0 <= i < |db.messages| && db.messages[i].id == x;
      assert MarkDelivered(db, id).messages[i].id == x;
    }
  }

  lemma DeliveredItems(q: Outbox.Queue, id: string)
    ensures forall m :: m in Outbox.Delivered(q, id) ==> m in q
  {
  }

  /** A stored text comes from whoever the envelope says, and is announced at most once. */
  lemma ChatKeeps(me: UserId, honest: set<UserId>, issued: set<Send>, stored: Facts, n: Node, e: Envelope)
    requires NodeOk(me, honest, issued, stored, n)
    requires e.sender in honest ==> Send(e.sender, me, EffectiveId(e), e.payload.text) in issued
    ensures NodeOk(me, honest, issued, stored, HandleChat(n, me, e).node)
  {
    hide Add, Decimal, ItemOk, Has;
    var m := Incoming(me, e.sender, EffectiveId(e), e.payload.text, e.payload.group, e.timestamp);
    var r := HandleText(n.db, m);
    if r.shouldAck {
      AddedMessageOk(me, honest, issued, stored, n, m);
      AddKeeps(n.db, m);
      SamePending(n.db, m);
      NowKnown(r.db, m);
      if r.isNew {
        assert !Known(n.db, m.id);
        assert m.id !in n.raised;
      }
    }
  }

  lemma NowKnown(db: Db, m: Msg)
    requires m in db.messages
    ensures Known(db, m.id)
  {
  }

  /** What an acknowledged text leaves in the recipient's store. */
  lemma AckMeansStored(n: Node, me: UserId, e: Envelope, hash: Replay.Hash, now: nat)
    requires DbOk(n.db) && HandleEnvelope(n, me, e, hash, now).ack.Some?
    ensures var h := HandleEnvelope(n, me, e, hash, now);
            && h.ack.value.0 == e.sender
            && exists m :: m in h.node.db.messages && m.incoming && m.sender == e.sender && m.id == h.ack.value.1
  {
    hide Add, Decimal, Replay.Check;
    var m := Incoming(me, e.sender, EffectiveId(e), e.payload.text, e.payload.group, e.timestamp);
    AddKeeps(n.db, m);
    assert HandleChat(n, me, e).node.db == HandleText(n.db, m).db;
  }

  /** A text may be replaced by one that is on record for the same people and id. */
  lemma EditedKeeps(me: UserId, honest: set<UserId>, issued: set<Send>, stored: Facts, n: Node, id: MsgId, text: string)
    requires NodeOk(me, honest, issued, stored, n)
    requires var i := PositionOf(n.db.messages, id);
             i < |n.db.messages| ==>
               var m := n.db.messages[i];
               && (m.incoming && m.sender in honest ==> Send(m.sender, me, id, text) in issued)
               && (!m.incoming && !ForSelf(me, m.recipient) ==> Send(me, m.recipient, id, text) in issued)
    ensures NodeOk(me, honest, issued, stored, n.(db := EditText(n.db, id, text)))
  {
    hide Known, ItemOk, ForSelf, PositionOf;
    var db, i := EditText(n.db, id, text), PositionOf(n.db.messages, id);
    if i < |n.db.messages| {
      assert n.db.messages[i] in n.db.messages;
      forall m | m in db.messages ensures MsgOk(me, honest, issued, stored, m) && m.id !in db.deleted
        && (m.incoming ==> (m.sender, m.id) !in db.pending)
      {
        var k :| 0 <= k < |db.messages| && db.messages[k] == m;
        assert n.db.messages[k] in n.db.messages;
      }
      forall x | Known(n.db, x) ensures Known(db, x) {
        KnownAfterEdit(n.db, id, text, x);
      }
    }
  }

  /** An edit received touches what its author sent, and nothing else. */
  lemma EditKeeps(me: UserId, honest: set<UserId>, issued: set<Send>, stored: Facts, n: Node,
                  id: MsgId, text: string, author: UserId)
    requires NodeOk(me, honest, issued, stored, n) && author != me
    requires author in honest ==> Send(author, me, id, text) in issued
    ensures NodeOk(me, honest, issued, stored, n.(db := EditByAuthor(n.db, id, text, author)))
  {
    hide Known, ItemOk, ForSelf, PositionOf, EditText;
    var i := PositionOf(n.db.messages, id);
    if i < |n.db.messages| && n.db.messages[i].sender == author {
      assert n.db.messages[i] in n.db.messages;
      EditedKeeps(me, honest, issued, stored, n, id, text);
    }
  }

  lemma KnownAfterEdit(db: Db, id: MsgId, text: string, x: MsgId)
    requires Known(db, x)
    ensures Known(EditText(db, id, text), x)
  {
    hide PositionOf;
    if Has(db.messages, x) {
      var i :| 0 <= i < |db.messages| && db.messages[i].id == x;
      assert EditText(db, id, text).messages[i].id == x;
    }
  }

  lemma PayloadKeeps(me: UserId, honest: set<UserId>, issued: set<Send>, stored: Facts, n: Node, e: Envelope)
    requires NodeOk(me, honest, issued, stored, n) && e.recipient == me && me in honest
    requires e.sender in honest ==> EnvelopeOk(issued, stored, e)
    ensures NodeOk(me, honest, issued, stored, HandlePayload(n, me, e).node)
  {
    hide NodeOk, HandleChat, HandleReceipt, HandleTombstone, EditByAuthor, Decimal;
    var p, x := e.payload, e.payload.extras;
    if p.receipt.Some? && p.receipt.value.signer == e.sender {
      ReceiptKeeps(me, honest, issued, stored, n, e.sender, p.receipt.value.messageId);
    } else if x.readReceipt == Some(e.sender) {
    } else if p.tombstone.Some? && p.tombstone.value.recipient == me && p.tombstone.value.signer == e.sender {
      TombstoneKeepsNode(me, honest, issued, stored, n, e.sender, p.tombstone.value.ids);
    } else if x.call || x.audio || Reacts(x) {
    } else if x.edited && p.id != "" {
      EditKeeps(me, honest, issued, stored, n, p.id, p.text, e.sender);
    } else {
      ChatKeeps(me, honest, issued, stored, n, e);
    }
  }

  lemma TombstoneKeepsNode(me: UserId, honest: set<UserId>, issued: set<Send>, stored: Facts,
                           n: Node, author: UserId, ids: seq<MsgId>)
    requires NodeOk(me, honest, issued, stored, n)
    ensures NodeOk(me, honest, issued, stored, n.(db := HandleTombstone(n.db, author, ids)))
  {
    hide MsgOk, ItemOk, Known, DeleteByAuthor;
    DeleteByAuthorKeeps(n.db, ids, author);
    ShrunkNodeOk(me, honest, issued, stored, n, HandleTombstone(n.db, author, ids));
  }

  lemma EnvelopeKeeps(me: UserId, honest: set<UserId>, issued: set<Send>, stored: Facts,
                      n: Node, e: Envelope, hash: Replay.Hash, now: nat)
    requires NodeOk(me, honest, issued, stored, n) && me in honest
    requires e.sender in honest ==> EnvelopeOk(issued, stored, e)
    ensures NodeOk(me, honest, issued, stored, HandleEnvelope(n, me, e, hash, now).node)
  {
    hide EnvelopeOk, HandlePayload, Replay.Check, MsgOk, ItemOk, Known, DbOk;
    if e.recipient == me {
      var seen := Replay.Check(n.seen, hash, e.signature, e.timestamp, now).0;
      PayloadKeeps(me, honest, issued, stored, n.(seen := seen), e);
    }
  }

  // ----- every step -----

  lemma DeliverKeeps(w: World, user: UserId, e: Envelope, now: nat, hash: Replay.Hash)
    requires Inv(w)
    ensures Inv(Next(w, Deliver(user, e, now), hash))
  {
    hide NodeOk, EnvelopeOk, HandleEnvelope, Outbox.Pop, Outbox.Push, Outbox.Rescheduled, Refill, DeleteByAuthor,
      DeletedByAuthor, DeleteAll, ClearFor, EditText, Rewritten, Add, EffectiveId, IsValidEmoji;
    var step := Deliver(user, e, now);
    if Enabled(w, step) {
      var v := Next(w, step, hash);
      EnvelopeKeeps(user, w.nodes.Keys, w.issued, w.stored, w.nodes[user], e, hash, now);
      NodeMonotone(user, w.nodes.Keys, w.issued, w.stored, v.issued, v.stored, v.nodes[user]);
      InvAfter(w, v, user);
    }
  }

  lemma StartSendKeeps(w: World, s: Send, timestamp: nat, signature: seq<byte>, hash: Replay.Hash)
    requires Inv(w)
    ensures Inv(Next(w, StartSend(s, timestamp, signature), hash))
  {
    hide NodeOk, HandleEnvelope, Outbox.Pop, Outbox.Push, Outbox.Rescheduled, Refill, DeleteByAuthor, DeletedByAuthor,
      DeleteAll, ClearFor, EditText, Rewritten, Add, EffectiveId, IsValidEmoji;
    var step := StartSend(s, timestamp, signature);
    if Enabled(w, step) {
      var v := Next(w, step, hash);
      NodeMonotone(s.from, w.nodes.Keys, w.issued, w.stored, v.issued, v.stored, w.nodes[s.from]);
      InvAfter(w, v, s.from);
    }
  }

  lemma PushedItems(q: Outbox.Queue, id: string, recipient: string, text: string, at: nat)
    ensures forall m :: m in Outbox.Push(q, id, recipient, text, at) ==>
              m in q || (m.id == id && m.recipient == recipient && m.text == text)
  {
  }

  lemma PoppedItems(q: Outbox.Queue, now: nat)
    ensures forall m :: m in Outbox.Pop(q, now).0 ==> m in q
    ensures Outbox.Pop(q, now).1.Some? ==>
              exists m :: m in q && m.(attempts := m.attempts + 1) == Outbox.Pop(q, now).1.value
  {
  }

  lemma RecordSendKeeps(w: World, s: Send, timestamp: nat, hash: Replay.Hash)
    requires Inv(w)
    ensures Inv(Next(w, RecordSend(s, timestamp), hash))
  {
    hide NodeOk, EnvelopeOk, Add, HandleEnvelope, Outbox.Pop, Outbox.Push, Outbox.Rescheduled, Refill, DeleteByAuthor,
      DeletedByAuthor, DeleteAll, ClearFor, EditText, Rewritten, EffectiveId, IsValidEmoji;
    var step := RecordSend(s, timestamp);
    if Enabled(w, step) {
      assert s in w.issued && Send(s.from, s.to, s.id, s.text) == s;
      var m := Outgoing(s.from, s.to, s.id, s.text, timestamp);
      AddedMessageOk(s.from, w.nodes.Keys, w.issued, w.stored, w.nodes[s.from], m);
      InvAfter(w, Next(w, step, hash), s.from);
    }
  }

  lemma SelfNoteKeeps(w: World, user: UserId, to: UserId, id: MsgId, text: string, timestamp: nat, hash: Replay.Hash)
    requires Inv(w)
    ensures Inv(Next(w, SelfNote(user, to, id, text, timestamp), hash))
  {
    hide NodeOk, EnvelopeOk, Add, HandleEnvelope, Outbox.Pop, Outbox.Push, Outbox.Rescheduled, Refill, DeleteByAuthor,
      DeletedByAuthor, DeleteAll, ClearFor, EditText, Rewritten, EffectiveId, IsValidEmoji;
    var step := SelfNote(user, to, id, text, timestamp);
    if Enabled(w, step) {
      var m := Outgoing(user, to, id, text, timestamp);
      AddedMessageOk(user, w.nodes.Keys, w.issued, w.stored, w.nodes[user], m);
      InvAfter(w, Next(w, step, hash), user);
    }
  }

  /** What waits or is under way may change, as long as every text of it is on record. */
  lemma OutboxKeeps(me: UserId, honest: set<UserId>, issued: set<Send>, stored: Facts, n: Node,
                    q: Outbox.Queue, inFlight: Option<(Outbox.Queued, nat)>)
    requires NodeOk(me, honest, issued, stored, n)
    requires forall m :: m in q ==> ItemOk(me, issued, m)
    requires inFlight.Some? ==> ItemOk(me, issued, inFlight.value.0)
    ensures NodeOk(me, honest, issued, stored, n.(outbox := q, inFlight := inFlight))
  {
    hide MsgOk, Known, DbOk, ItemOk;
  }

  lemma ItemsOk(me: UserId, honest: set<UserId>, issued: set<Send>, stored: Facts, n: Node)
    requires NodeOk(me, honest, issued, stored, n)
    ensures forall m :: m in n.outbox ==> ItemOk(me, issued, m)
    ensures n.inFlight.Some? ==> ItemOk(me, issued, n.inFlight.value.0)
  {
  }

  lemma QueueSendKeeps(w: World, s: Send, retryAt: nat, hash: Replay.Hash)
    requires Inv(w)
    ensures Inv(Next(w, QueueSend(s, retryAt), hash))
  {
    hide NodeOk, EnvelopeOk, Outbox.Push;
    var step := QueueSend(s, retryAt);
    if Enabled(w, step) {
      var n := w.nodes[s.from];
      PushedItems(n.outbox, s.id, s.to, s.text, retryAt);
      assert s in w.issued && Send(s.from, s.to, s.id, s.text) == s;
      ItemsOk(s.from, w.nodes.Keys, w.issued, w.stored, n);
      OutboxKeeps(s.from, w.nodes.Keys, w.issued, w.stored, n, Outbox.Push(n.outbox, s.id, s.to, s.text, retryAt),
                  n.inFlight);
      InvAfter(w, Next(w, step, hash), s.from);
    }
  }

  lemma WorkKeeps(w: World, user: UserId, now: nat, signature: seq<byte>, hash: Replay.Hash)
    requires Inv(w)
    ensures Inv(Next(w, Work(user, now, signature), hash))
  {
    hide NodeOk, Outbox.Pop;
    var step := Work(user, now, signature);
    if Enabled(w, step) {
      var n := w.nodes[user];
      var (q, item) := Outbox.Pop(n.outbox, now);
      PoppedItems(n.outbox, now);
      ItemsOk(user, w.nodes.Keys, w.issued, w.stored, n);
      OutboxKeeps(user, w.nodes.Keys, w.issued, w.stored, n, q, Some((item.value, now)));
      InvAfter(w, Next(w, step, hash), user);
    }
  }

  lemma RescheduleKeeps(w: World, user: UserId, hash: Replay.Hash)
    requires Inv(w)
    ensures Inv(Next(w, Reschedule(user), hash))
  {
    hide NodeOk, EnvelopeOk, Outbox.Backoff;
    if Enabled(w, Reschedule(user)) {
      var n := w.nodes[user];
      var (m, now) := n.inFlight.value;
      ItemsOk(user, w.nodes.Keys, w.issued, w.stored, n);
      OutboxKeeps(user, w.nodes.Keys, w.issued, w.stored, n, n.outbox + [Outbox.Rescheduled(m, now)], None);
      InvAfter(w, Next(w, Reschedule(user), hash), user);
    }
  }

  lemma AcknowledgeKeeps(w: World, user: UserId, to: UserId, id: MsgId, timestamp: nat, signature: seq<byte>,
                         hash: Replay.Hash)
    requires Inv(w)
    ensures Inv(Next(w, Acknowledge(user, to, id, timestamp, signature), hash))
  {
    hide NodeOk, HandleEnvelope, Outbox.Pop, Outbox.Push, Outbox.Rescheduled, Refill, DeleteByAuthor, DeletedByAuthor,
      DeleteAll, ClearFor, EditText, Rewritten, Add, EffectiveId, IsValidEmoji;
    var step := Acknowledge(user, to, id, timestamp, signature);
    if Enabled(w, step) {
      InvAfter(w, Next(w, step, hash), user);
    }
  }

  lemma NodeTombstonesHold(w: World, user: UserId)
    requires Inv(w) && user in w.nodes
    ensures forall m :: m in w.nodes[user].db.messages && m.incoming ==> (m.sender, m.id) !in w.nodes[user].db.pending
  {
  }

  lemma DeletionsKeep(w: World, user: UserId, db: Db, v: World)
    requires Inv(w) && user in w.nodes && v == SetDb(w, user, db).(wire := v.wire)
    requires forall e :: e in v.wire && e !in w.wire && e.sender in w.nodes ==> EnvelopeOk(v.issued, v.stored, e)
    requires DbOk(db)
    requires forall m :: m in db.messages ==> m in w.nodes[user].db.messages
    requires forall m :: m in w.nodes[user].db.messages && m !in db.messages ==> m.id in db.deleted
    requires w.nodes[user].db.deleted <= db.deleted && w.nodes[user].db.pending == db.pending
    ensures Inv(v)
  {
    hide NodeOk, EnvelopeOk, DbOk;
    NodeTombstonesHold(w, user);
    ShrunkNodeOk(user, w.nodes.Keys, w.issued, w.stored, w.nodes[user], db);
    InvAfter(w, v, user);
  }

  lemma DeleteStepsKeep(w: World, step: Step, hash: Replay.Hash)
    requires Inv(w) && (step.DeleteLocally? || step.DeleteForEveryone? || step.ClearChat?)
    ensures Inv(Next(w, step, hash))
  {
    hide NodeOk, DbOk, DeleteByAuthor, DeletedByAuthor, HandleEnvelope, EditText, Rewritten, EffectiveId, Add, Refill,
      Outbox.Pop, Outbox.Push, Outbox.Rescheduled;
    if Enabled(w, step) {
      var db := w.nodes[step.user].db;
      NodeDbOk(w, step.user);
      match step {
        case DeleteLocally(user, ids) =>
          DeleteAllKeeps(db, ids);
          DeletionsKeep(w, user, DeleteAll(db, ids), Next(w, step, hash));
        case ClearChat(user, contact) =>
          ClearForKeeps(db, contact);
          DeletionsKeep(w, user, ClearFor(db, contact), Next(w, step, hash));
        case DeleteForEveryone(user, to, ids, timestamp, signature) =>
          DeleteByAuthorKeeps(db, ids, user);
          DeletionsKeep(w, user, DeleteByAuthor(db, ids, user), Next(w, step, hash));
      }
    }
  }

  lemma NodeDbOk(w: World, user: UserId)
    requires Inv(w) && user in w.nodes
    ensures DbOk(w.nodes[user].db)
  {
  }

  lemma {:induction false} RefillItems(user: UserId, honest: set<UserId>, issued: set<Send>, stored: Facts,
                                       ms: seq<Msg>, now: nat)
    requires forall m :: m in ms ==> MsgOk(user, honest, issued, stored, m)
    requires forall s :: s in issued ==> s.id != ""
    ensures forall q :: q in Refill(user, ms, now) ==> ItemOk(user, issued, q)
  {
    hide Outbox.Push;
    if ms != [] {
      var init, m := ms[..|ms| - 1], ms[|ms| - 1];
      RefillItems(user, honest, issued, stored, init, now);
      assert m in ms;
      PushedItems(Refill(user, init, now), m.id, m.recipient, m.text, now);
    }
  }

  lemma RestartKeeps(w: World, user: UserId, now: nat, hash: Replay.Hash)
    requires Inv(w)
    ensures Inv(Next(w, Restart(user, now), hash))
  {
    hide MsgOk, Known, DbOk, EnvelopeOk, ItemOk, Refill, HandleEnvelope, Outbox.Pop, Outbox.Push, Outbox.Rescheduled,
      DeleteByAuthor, DeletedByAuthor, DeleteAll, ClearFor, EditText, Rewritten, Add, EffectiveId, IsValidEmoji;
    if Enabled(w, Restart(user, now)) {
      RefillItems(user, w.nodes.Keys, w.issued, w.stored, w.nodes[user].db.messages, now);
      InvAfter(w, Next(w, Restart(user, now), hash), user);
    }
  }

  /** Reactions and call signals only put an envelope on the wire. */
  lemma ExtraStepsKeep(w: World, step: Step, hash: Replay.Hash)
    requires Inv(w) && (step.React? || step.Signal?)
    ensures Inv(Next(w, step, hash))
  {
    hide NodeOk, HandleEnvelope, Outbox.Pop, Outbox.Push, Outbox.Rescheduled, Refill, DeleteByAuthor, DeletedByAuthor,
      DeleteAll, ClearFor, EditText, Rewritten, Add, EffectiveId;
    if Enabled(w, step) {
      var v := Next(w, step, hash);
      NodeMonotone(step.user, w.nodes.Keys, w.issued, w.stored, v.issued, v.stored, w.nodes[step.user]);
      InvAfter(w, v, step.user);
    }
  }

  lemma EditStepKeeps(w: World, user: UserId, to: UserId, id: MsgId, text: string, timestamp: nat,
                      signature: seq<byte>, hash: Replay.Hash)
    requires Inv(w)
    ensures Inv(Next(w, Edit(user, to, id, text, timestamp, signature), hash))
  {
    hide EditText, Decimal, NodeOk, EnvelopeOk, HandleEnvelope, Outbox.Pop, Outbox.Push, Outbox.Rescheduled, Refill,
      DeleteByAuthor, DeletedByAuthor, DeleteAll, ClearFor, Rewritten, Add, EffectiveId, IsValidEmoji;
    var step := Edit(user, to, id, text, timestamp, signature);
    if Enabled(w, step) {
      var v := Next(w, step, hash);
      var n := w.nodes[user];
      NodeMonotone(user, w.nodes.Keys, w.issued, w.stored, v.issued, v.stored, n);
      EffectiveIdNotEmpty(Envelope(user, to, timestamp, signature, EditPayload(id, text)));
      RewrittenOk(user, w.nodes.Keys, w.issued, w.stored, n, id, text);
      EditedKeeps(user, w.nodes.Keys, v.issued, v.stored, n, id, text);
      EditEnvelopeOk(v.issued, v.stored, user, to, id, text, timestamp, signature);
      InvAfter(w, v, user);
    }
  }

  lemma EditEnvelopeOk(issued: set<Send>, stored: Facts, user: UserId, to: UserId, id: MsgId, text: string,
                       timestamp: nat, signature: seq<byte>)
    requires var e := Envelope(user, to, timestamp, signature, EditPayload(id, text));
             user != to && Send(user, to, EffectiveId(e), text) in issued
    ensures EnvelopeOk(issued, stored, Envelope(user, to, timestamp, signature, EditPayload(id, text)))
  {
    hide EffectiveId;
  }

  lemma EffectiveIdNotEmpty(e: Envelope)
    ensures EffectiveId(e) != ""
  {
    hide Decimal;
  }

  /** What a local edit rewrites is on record afterwards. */
  lemma RewrittenOk(me: UserId, honest: set<UserId>, issued: set<Send>, stored: Facts, n: Node, id: MsgId, text: string)
    requires NodeOk(me, honest, issued, stored, n) && forall s :: s in issued ==> s.id != ""
    ensures var i := PositionOf(n.db.messages, id);
            i < |n.db.messages| ==>
              var m := n.db.messages[i];
              && (m.incoming && m.sender in honest ==> Send(m.sender, me, id, text) in Rewritten(n.db, id, text))
              && (!m.incoming && !ForSelf(me, m.recipient) ==>
                    Send(me, m.recipient, id, text) in Rewritten(n.db, id, text))
    ensures forall s :: s in Rewritten(n.db, id, text) ==>
              s.id == id != "" && s.text == text && (s.from == me || s.to == me)
  {
    hide ForSelf, Known, ItemOk;
    var i := PositionOf(n.db.messages, id);
    if i < |n.db.messages| {
      assert n.db.messages[i] in n.db.messages;
    }
  }

  lemma OtherStepsKeep(w: World, step: Step, hash: Replay.Hash)
    requires Inv(w) && (step.DropAck? || step.SetBlocked? || step.Inject?)
    ensures Inv(Next(w, step, hash))
  {
    hide NodeOk, EnvelopeOk;
    if Enabled(w, step) {
      if step.SetBlocked? {
        BlockingKeeps(step.user, w.nodes.Keys, w.issued, w.stored, w.nodes[step.user], step.blocked);
      }
      InvAfter(w, Next(w, step, hash), if step.SetBlocked? then step.user else "");
    }
  }

  lemma BlockingKeeps(me: UserId, honest: set<UserId>, issued: set<Send>, stored: Facts, n: Node, blocked: set<UserId>)
    requires NodeOk(me, honest, issued, stored, n)
    ensures NodeOk(me, honest, issued, stored, n.(blocked := blocked))
  {
    hide MsgOk, Known, DbOk, ItemOk;
  }

  lemma NextKeeps(w: World, step: Step, hash: Replay.Hash)
    requires Inv(w)
    ensures Inv(Next(w, step, hash))
  {
    hide Inv, Next;
    match step
    case StartSend(s, timestamp, signature) => StartSendKeeps(w, s, timestamp, signature, hash);
    case QueueSend(s, retryAt) => QueueSendKeeps(w, s, retryAt, hash);
    case RecordSend(s, timestamp) => RecordSendKeeps(w, s, timestamp, hash);
    case SelfNote(user, to, id, text, timestamp) => SelfNoteKeeps(w, user, to, id, text, timestamp, hash);
    case Work(user, now, signature) => WorkKeeps(w, user, now, signature, hash);
    case Reschedule(user) => RescheduleKeeps(w, user, hash);
    case Deliver(user, e, now) => DeliverKeeps(w, user, e, now, hash);
    case Acknowledge(user, to, id, timestamp, signature) =>
      AcknowledgeKeeps(w, user, to, id, timestamp, signature, hash);
    case DeleteLocally(_, _) => DeleteStepsKeep(w, step, hash);
    case DeleteForEveryone(_, _, _, _, _) => DeleteStepsKeep(w, step, hash);
    case ClearChat(_, _) => DeleteStepsKeep(w, step, hash);
    case Restart(user, now) => RestartKeeps(w, user, now, hash);
    case DropAck(_, _, _) => OtherStepsKeep(w, step, hash);
    case SetBlocked(_, _) => OtherStepsKeep(w, step, hash);
    case React(_, _, _, _, _, _) => ExtraStepsKeep(w, step, hash);
    case Signal(_, _, _, _, _, _) => ExtraStepsKeep(w, step, hash);
    case Edit(user, to, id, text, timestamp, signature) =>
      EditStepKeeps(w, user, to, id, text, timestamp, signature, hash);
    case Inject(_) => OtherStepsKeep(w, step, hash);
  }

  lemma {:induction false} RunKeeps(w: World, steps: seq<Step>, hash: Replay.Hash)
    requires Inv(w)
    ensures Inv(Run(w, steps, hash))
    decreases |steps|
  {
    hide Inv, Next;
    if steps != [] {
      NextKeeps(w, steps[0], hash);
      RunKeeps(Next(w, steps[0], hash), steps[1..], hash);
    }
  }

  lemma StartOk(users: set<UserId>)
    ensures Inv(Start(users))
  {
  }

  // ----- the theorems -----

  /**
   Delivery soundness: whatever the network and the dishonest users do, a message an honest
   user sees as delivered to an honest peer was stored by that peer, under that id, from that
   sender.
   */
  lemma DeliveredMeansStored(users: set<UserId>, steps: seq<Step>, hash: Replay.Hash, user: UserId, m: Msg)
    requires var w := Run(Start(users), steps, hash);
             user in w.nodes && m in w.nodes[user].db.messages && !m.incoming && m.delivered
             && m.recipient in w.nodes && !ForSelf(user, m.recipient)
    ensures (m.recipient, user, m.id) in Run(Start(users), steps, hash).stored
  {
    hide Run, Known, ItemOk, DbOk;
    StartOk(users);
    RunKeeps(Start(users), steps, hash);
    var w := Run(Start(users), steps, hash);
    assert NodeOk(user, w.nodes.Keys, w.issued, w.stored, w.nodes[user]);
    assert MsgOk(user, w.nodes.Keys, w.issued, w.stored, m);
  }

  lemma {:induction false} RunAppend(w: World, steps: seq<Step>, more: seq<Step>, hash: Replay.Hash)
    ensures Run(w, steps + more, hash) == Run(Run(w, steps, hash), more, hash)
    decreases |steps|
  {
    hide Next;
    if steps == [] {
      assert steps + more == more;
    } else {
      assert (steps + more)[1..] == steps[1..] + more;
      RunAppend(Next(w, steps[0], hash), steps[1..], more, hash);
    }
  }

  lemma RunLast(w: World, steps: seq<Step>, hash: Replay.Hash)
    requires steps != []
    ensures var init, last := steps[..|steps| - 1], steps[|steps| - 1];
            Run(w, steps, hash) == Next(Run(w, init, hash), last, hash)
  {
    hide Next;
    var init, last := steps[..|steps| - 1], steps[|steps| - 1];
    assert steps == init + [last];
    RunAppend(w, init, [last], hash);
    assert [last][1..] == [];
    assert Run(Run(w, init, hash), [last], hash) == Next(Run(w, init, hash), last, hash);
  }

  /** The recipient's store holds a message received under this id from this sender. */
  ghost predicate HeldBy(w: World, fact: (UserId, UserId, MsgId)) {
    fact.0 in w.nodes
    && exists m :: m in w.nodes[fact.0].db.messages && m.incoming && m.sender == fact.1 && m.id == fact.2
  }

  /** What the history records as stored by a step is in the store after it. */
  lemma NewlyStored(w: World, step: Step, hash: Replay.Hash, fact: (UserId, UserId, MsgId))
    requires Inv(w) && fact in Next(w, step, hash).stored && fact !in w.stored
    ensures HeldBy(Next(w, step, hash), fact)
  {
    hide NodeOk, HandleEnvelope, EnvelopeOk, DeleteByAuthor, DeletedByAuthor, DeleteAll, ClearFor, EditText, Rewritten,
      EffectiveId, Add, Refill, Outbox.Pop, Outbox.Push, Outbox.Rescheduled, DbOk;
    match step
    case Deliver(user, e, now) =>
      NodeDbOk(w, user);
      AckMeansStored(w.nodes[user], user, e, hash, now);
    case _ =>
  }

  /** Every recorded fact was true at some moment of the run. */
  lemma {:induction false} StoredWasHeld(users: set<UserId>, steps: seq<Step>, hash: Replay.Hash,
                                         fact: (UserId, UserId, MsgId)) returns (n: nat)
    requires fact in Run(Start(users), steps, hash).stored
    ensures n <= |steps| && HeldBy(Run(Start(users), steps[..n], hash), fact)
  {
    hide Next, HeldBy, Inv;
    if steps == [] {
      assert false;
    } else {
      var init, last := steps[..|steps| - 1], steps[|steps| - 1];
      var w := Run(Start(users), init, hash);
      RunLast(Start(users), steps, hash);
      if fact in w.stored {
        n := StoredWasHeld(users, init, hash, fact);
        assert init[..n] == steps[..n];
      } else {
        StartOk(users);
        RunKeeps(Start(users), init, hash);
        NewlyStored(w, last, hash, fact);
        n := |steps|;
        assert steps[..n] == steps;
      }
    }
  }

  /**
   Delivery soundness in terms of the stores themselves: if a message is shown as delivered to an
   honest peer, there was a moment at which that peer's store held it.
   */
  lemma DeliveredWasHeld(users: set<UserId>, steps: seq<Step>, hash: Replay.Hash, user: UserId, m: Msg)
    requires var w := Run(Start(users), steps, hash);
             user in w.nodes && m in w.nodes[user].db.messages && !m.incoming && m.delivered
             && m.recipient in w.nodes && !ForSelf(user, m.recipient)
    ensures exists n :: 0 <= n <= |steps|
              && HeldBy(Run(Start(users), steps[..n], hash), (m.recipient, user, m.id))
  {
    hide Run, HeldBy;
    DeliveredMeansStored(users, steps, hash, user, m);
    var n := StoredWasHeld(users, steps, hash, (m.recipient, user, m.id));
  }

  /** No id is announced twice, however many envelopes carried it and whatever was deleted or restarted. */
  lemma AnnouncedOnce(users: set<UserId>, steps: seq<Step>, hash: Replay.Hash, user: UserId, i: nat, j: nat)
    requires var w := Run(Start(users), steps, hash);
             user in w.nodes && i < j < |w.nodes[user].raised|
    ensures var raised := Run(Start(users), steps, hash).nodes[user].raised;
            raised[i] != raised[j]
  {
    hide Run, Known, ItemOk, DbOk, MsgOk;
    StartOk(users);
    RunKeeps(Start(users), steps, hash);
    var w := Run(Start(users), steps, hash);
    assert NodeOk(user, w.nodes.Keys, w.issued, w.stored, w.nodes[user]);
  }

  /**
   Which steps put a text on record: sending it, editing it in (for the peer, and in the local
   copy, whoever wrote that), and reacting with an invalid emoji.
   */
  ghost predicate Issues(step: Step, s: Send) {
    match step
    case StartSend(send, _, _) => s == send
    case React(user, to, id, emoji, _, _) => s == Send(user, to, "react_" + id, emoji) && !IsValidEmoji(emoji)
    case Edit(user, to, id, text, timestamp, signature) =>
      || s == Send(user, to, EffectiveId(Envelope(user, to, timestamp, signature, EditPayload(id, text))), text)
      || (s.id == id && s.text == text && (s.from == user || s.to == user))
    case _ => false
  }

  lemma NewlyIssued(w: World, step: Step, hash: Replay.Hash, s: Send)
    requires Inv(w) && s in Next(w, step, hash).issued && s !in w.issued
    ensures Issues(step, s)
  {
    hide NodeOk, EnvelopeOk, HandleEnvelope, EffectiveId, Rewritten, EditText, Add, Refill, ClearFor, DeleteAll,
      DeletedByAuthor, DeleteByAuthor, Outbox.Pop, Outbox.Push, Outbox.Rescheduled;
    if step.Edit? {
      RewrittenOk(step.user, w.nodes.Keys, w.issued, w.stored, w.nodes[step.user], step.id, step.text);
    }
  }

  lemma {:induction false} IssuedBySteps(users: set<UserId>, steps: seq<Step>, hash: Replay.Hash, s: Send)
    requires s in Run(Start(users), steps, hash).issued
    ensures exists step :: step in steps && Issues(step, s)
  {
    hide Next, Issues, Inv;
    if steps != [] {
      var init, last := steps[..|steps| - 1], steps[|steps| - 1];
      RunLast(Start(users), steps, hash);
      assert last in steps && forall step :: step in init ==> step in steps;
      if s in Run(Start(users), init, hash).issued {
        IssuedBySteps(users, init, hash, s);
      } else {
        StartOk(users);
        RunKeeps(Start(users), init, hash);
        NewlyIssued(Run(Start(users), init, hash), last, hash, s);
      }
    }
  }

  /**
   Authenticity: a message an honest user holds from an honest sender was written by that sender
   for this user under that id and with that text, unless it is a reaction with an invalid emoji,
   or the user has edited the text of its own copy.
   */
  lemma HeldMeansSent(users: set<UserId>, steps: seq<Step>, hash: Replay.Hash, user: UserId, m: Msg)
    requires var w := Run(Start(users), steps, hash);
             user in w.nodes && m in w.nodes[user].db.messages && m.incoming && m.sender in w.nodes
    ensures Send(m.sender, user, m.id, m.text) in Run(Start(users), steps, hash).issued
    ensures exists step :: step in steps && Issues(step, Send(m.sender, user, m.id, m.text))
  {
    hide Run, Known, ItemOk, DbOk, Issues;
    StartOk(users);
    RunKeeps(Start(users), steps, hash);
    var w := Run(Start(users), steps, hash);
    assert NodeOk(user, w.nodes.Keys, w.issued, w.stored, w.nodes[user]);
    assert MsgOk(user, w.nodes.Keys, w.issued, w.stored, m);
    IssuedBySteps(users, steps, hash, Send(m.sender, user, m.id, m.text));
  }

  /** Without edits and invalid reactions, what is held was sent. */
  lemma HeldMeansStarted(users: set<UserId>, steps: seq<Step>, hash: Replay.Hash, user: UserId, m: Msg)
    requires var w := Run(Start(users), steps, hash);
             user in w.nodes && m in w.nodes[user].db.messages && m.incoming && m.sender in w.nodes
    requires forall step :: step in steps ==> !step.Edit? && (step.React? ==> IsValidEmoji(step.emoji))
    ensures exists step :: step in steps && step.StartSend? && step.send == Send(m.sender, user, m.id, m.text)
  {
    hide Run;
    HeldMeansSent(users, steps, hash, user, m);
  }

  /** A reaction that arrives is read as a text exactly if its emoji is invalid. */
  lemma ReactionIsText(user: UserId, to: UserId, id: MsgId, emoji: string, timestamp: nat, signature: seq<byte>,
                       hash: Replay.Hash, now: nat)
    requires user != to && Replay.AbsDiff(now, timestamp) <= Replay.MAX_REPLAY_WINDOW_SECS
    ensures var e := Envelope(user, to, timestamp, signature, ReactionPayload(id, emoji));
            var react := React(user, to, id, emoji, timestamp, signature);
            var w := Run(Start({user, to}), [react, Deliver(to, e, now)], hash);
            && to in w.nodes
            && w.nodes[to].db.messages == if IsValidEmoji(emoji) then []
                                          else [Incoming(to, user, "react_" + id, emoji, None, timestamp)]
  {
    hide Decimal;
    var e := Envelope(user, to, timestamp, signature, ReactionPayload(id, emoji));
    var react := React(user, to, id, emoji, timestamp, signature);
    ReactionSent(user, to, id, emoji, timestamp, signature, hash);
    NewNodeReads(user, to, id, emoji, timestamp, signature, hash, now);
    var w := Next(Start({user, to}), react, hash);
    DeliveredTo(w, to, e, hash, now);
    hide *;
    assert [react, Deliver(to, e, now)][..1] == [react] && [react][..0] == [];
    RunLast(Start({user, to}), [react, Deliver(to, e, now)], hash);
    RunLast(Start({user, to}), [react], hash);
    NoSteps(Start({user, to}), hash);
  }

  lemma NoSteps(w: World, hash: Replay.Hash)
    ensures Run(w, [], hash) == w
  {
  }

  lemma ReactionSent(user: UserId, to: UserId, id: MsgId, emoji: string, timestamp: nat, signature: seq<byte>,
                     hash: Replay.Hash)
    ensures var w := Next(Start({user, to}), React(user, to, id, emoji, timestamp, signature), hash);
            && to in w.nodes && w.nodes[to] == NEW_NODE
            && Envelope(user, to, timestamp, signature, ReactionPayload(id, emoji)) in w.wire
  {
    hide ReactionPayload, IsValidEmoji;
  }

  lemma DeliveredTo(w: World, user: UserId, e: Envelope, hash: Replay.Hash, now: nat)
    requires user in w.nodes && e in w.wire
    ensures var v := Next(w, Deliver(user, e, now), hash);
            user in v.nodes && v.nodes[user] == HandleEnvelope(w.nodes[user], user, e, hash, now).node
  {
    hide HandleEnvelope;
  }

  lemma NewNodeReads(user: UserId, to: UserId, id: MsgId, emoji: string, timestamp: nat, signature: seq<byte>,
                     hash: Replay.Hash, now: nat)
    requires user != to && Replay.AbsDiff(now, timestamp) <= Replay.MAX_REPLAY_WINDOW_SECS
    ensures var e := Envelope(user, to, timestamp, signature, ReactionPayload(id, emoji));
            HandleEnvelope(NEW_NODE, to, e, hash, now).node.db.messages
            == if IsValidEmoji(emoji) then [] else [Incoming(to, user, "react_" + id, emoji, None, timestamp)]
  {
    hide Decimal;
    assert Replay.Unexpired(map[], now) == map[];
    assert !SelfEcho(NEW_NODE.db, to, Envelope(user, to, timestamp, signature, ReactionPayload(id, emoji)));
  }

  // ----- tombstones over a run -----

  lemma PendingGrows(w: World, step: Step, hash: Replay.Hash, user: UserId)
    requires user in w.nodes
    ensures var v := Next(w, step, hash);
            user in v.nodes && w.nodes[user].db.pending <= v.nodes[user].db.pending
  {
    hide DeleteByAuthor, DeletedByAuthor, DeleteAll, ClearFor, EditText, Rewritten, EffectiveId, Add, Refill,
      HandleEnvelope, Outbox.Pop, Outbox.Push, Outbox.Rescheduled;
    if Enabled(w, step) {
      match step
      case RecordSend(s, timestamp) => SamePending(w.nodes[s.from].db, Outgoing(s.from, s.to, s.id, s.text, timestamp));
      case SelfNote(u, to, id, text, timestamp) =>
        SamePending(w.nodes[u].db, Outgoing(u, to, id, text, timestamp));
      case Deliver(u, e, now) => EnvelopePendingGrows(w.nodes[u], u, e, hash, now);
      case DeleteLocally(u, ids) => DeletionsPending(w.nodes[u].db, ids, "");
      case ClearChat(u, contact) => DeletionsPending(w.nodes[u].db, [], contact);
      case DeleteForEveryone(u, _, ids, _, _) => DeleteByAuthorPending(w.nodes[u].db, ids, u);
      case Edit(u, _, id, text, _, _) => EditPending(w.nodes[u].db, id, text);
      case _ =>
    }
  }

  lemma DeletionsPending(db: Db, ids: seq<MsgId>, contact: UserId)
    ensures DeleteAll(db, ids).pending == db.pending && ClearFor(db, contact).pending == db.pending
  {
  }

  lemma EditPending(db: Db, id: MsgId, text: string)
    ensures EditText(db, id, text).pending == db.pending
  {
  }

  lemma EnvelopePendingGrows(n: Node, me: UserId, e: Envelope, hash: Replay.Hash, now: nat)
    ensures n.db.pending <= HandleEnvelope(n, me, e, hash, now).node.db.pending
  {
    hide HandlePayload, Replay.Check;
    PayloadPendingGrows(n.(seen := Replay.Check(n.seen, hash, e.signature, e.timestamp, now).0), me, e);
  }

  lemma PayloadPendingGrows(n: Node, me: UserId, e: Envelope)
    ensures n.db.pending <= HandlePayload(n, me, e).node.db.pending
  {
    hide DeleteByAuthor, PositionOf, Outbox.Delivered, Decimal;
    if e.payload.tombstone.Some? {
      DeleteByAuthorPending(n.db, e.payload.tombstone.value.ids, e.sender);
    }
  }

  lemma {:induction false} PendingGrowsOverRuns(w: World, steps: seq<Step>, hash: Replay.Hash, user: UserId)
    requires user in w.nodes
    ensures var v := Run(w, steps, hash);
            user in v.nodes && w.nodes[user].db.pending <= v.nodes[user].db.pending
    decreases |steps|
  {
    hide Next;
    if steps != [] {
      PendingGrows(w, steps[0], hash, user);
      PendingGrowsOverRuns(Next(w, steps[0], hash), steps[1..], hash, user);
    }
  }

  /**
   A tombstone on record is final: no message of its author received under its id is ever in the
   user's store again.
   */
  lemma PendingStaysAway(w: World, more: seq<Step>, hash: Replay.Hash, user: UserId, author: UserId, id: MsgId, m: Msg)
    requires Inv(w) && user in w.nodes && (author, id) in w.nodes[user].db.pending
    requires var v := Run(w, more, hash);
             user in v.nodes && m in v.nodes[user].db.messages && m.incoming && m.sender == author
    ensures m.id != id
  {
    hide Run, Inv;
    RunKeeps(w, more, hash);
    PendingGrowsOverRuns(w, more, hash, user);
    NodeTombstonesHold(Run(w, more, hash), user);
  }

  // ----- progress -----

  ghost predicate ShownDelivered(db: Db, id: MsgId, to: UserId) {
    exists m :: m in db.messages && m.id == id && m.recipient == to && !m.incoming && m.delivered
  }

  lemma TextIsAcknowledged(n: Node, me: UserId, e: Envelope, hash: Replay.Hash, now: nat)
    requires e.recipient == me && e.sender != me && e.sender !in n.blocked
    requires e.payload == TextPayload(e.payload.id, e.payload.text) && e.payload.id != ""
    requires !IsTombstoned(n.db, e.sender, e.payload.id)
    requires Replay.Check(n.seen, hash, e.signature, e.timestamp, now).1
    ensures HandleEnvelope(n, me, e, hash, now).ack == Some((e.sender, e.payload.id))
  {
    hide Add, Decimal, Replay.Check;
  }

  lemma ReceiptIsRecorded(n: Node, me: UserId, e: Envelope, hash: Replay.Hash, now: nat, id: MsgId)
    requires e.recipient == me && e.sender != me && e.sender !in n.blocked && DbOk(n.db)
    requires e.payload == ReceiptPayload(id, e.sender) && AwaitsReceipt(n.db, id, e.sender)
    requires Replay.Check(n.seen, hash, e.signature, e.timestamp, now).1
    ensures ShownDelivered(HandleEnvelope(n, me, e, hash, now).node.db, id, e.sender)
  {
    hide HandleTombstone, HandleChat, Replay.Check, Outbox.Delivered;
    var i :| 0 <= i < |n.db.messages|
      && n.db.messages[i].id == id && n.db.messages[i].recipient == e.sender && !n.db.messages[i].incoming;
    assert PositionOf(n.db.messages, id) == i;
    var ms := HandleEnvelope(n, me, e, hash, now).node.db.messages;
    assert ms[i] in ms;
  }

  /**
   One good exchange suffices, whatever happened before: if an envelope of a recorded text
   arrives and is not refused, and so does the receipt for it, the sender's copy is delivered.
   */
  lemma OneExchangeSuffices(w: World, from: UserId, to: UserId, text: Envelope, receipt: Envelope, id: MsgId,
                            hash: Replay.Hash, now: nat, later: nat)
    requires Inv(w) && from in w.nodes && to in w.nodes && from != to && text in w.wire
    requires text == Envelope(from, to, text.timestamp, text.signature, TextPayload(id, text.payload.text)) && id != ""
    requires receipt == Envelope(to, from, receipt.timestamp, receipt.signature, ReceiptPayload(id, to))
    requires from !in w.nodes[to].blocked && to !in w.nodes[from].blocked
    requires !IsTombstoned(w.nodes[to].db, from, id) && AwaitsReceipt(w.nodes[from].db, id, to)
    requires Replay.Check(w.nodes[to].seen, hash, text.signature, text.timestamp, now).1
    requires Replay.Check(w.nodes[from].seen, hash, receipt.signature, receipt.timestamp, later).1
    ensures var v := Run(w, [Deliver(to, text, now), Acknowledge(to, from, id, receipt.timestamp, receipt.signature),
                             Deliver(from, receipt, later)], hash);
            from in v.nodes && ShownDelivered(v.nodes[from].db, id, to)
  {
    hide HandleEnvelope, Replay.Check, IsTombstoned, AwaitsReceipt, ShownDelivered, Run, Inv;
    TextIsAcknowledged(w.nodes[to], to, text, hash, now);
    var w1 := Next(w, Deliver(to, text, now), hash);
    var w2 := Next(w1, Acknowledge(to, from, id, receipt.timestamp, receipt.signature), hash);
    assert w2.nodes[from] == w.nodes[from] && receipt in w2.wire;
    NodeDbOk(w, from);
    ReceiptIsRecorded(w.nodes[from], from, receipt, hash, later, id);
    ThreeSteps(w, Deliver(to, text, now), Acknowledge(to, from, id, receipt.timestamp, receipt.signature),
               Deliver(from, receipt, later), hash);
  }
}
