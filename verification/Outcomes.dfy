/**
 What whole runs of the delivery protocol achieve (nodex-messenger/src/messenger.rs): deletions
 are final, at both ends, and what a restart finds unacknowledged is handed over again.
 */
module Outcomes {
  import opened Bytes
  import opened Sequences
  import opened MessengerDbs
  import opened Messengers
  import opened Effects
  import opened Delivery
  import Outbox
  import Replay

  // ----- deletion -----

  /** What the arrival of a taken tombstone leaves behind in any reachable state. */
  lemma TombstoneArrives(w: World, user: UserId, e: Envelope, now: nat, hash: Replay.Hash)
    requires Inv(w) && user in w.nodes && e in w.wire
    requires Taken(w.nodes[user], user, e, hash, now) && Deletes(user, e)
    ensures var v := Next(w, Deliver(user, e, now), hash);
            && Inv(v) && user in v.nodes
            && (forall m :: m in v.nodes[user].db.messages <==>
                  m in w.nodes[user].db.messages && !(m.sender == e.sender && m.id in e.payload.tombstone.value.ids))
            && (forall id :: id in e.payload.tombstone.value.ids ==> (e.sender, id) in v.nodes[user].db.pending)
  {
    hide Taken, Deletes, HandleEnvelope, Inv, Filter;
    NextKeeps(w, Deliver(user, e, now), hash);
    NodeDbOk(w, user);
    TombstoneExactly(w.nodes[user], user, e, hash, now);
    DeliveredTo(w, user, e, hash, now);
  }

  /**
   A tombstone is final: from the moment a user takes in an author's tombstone, no message of that
   author received under its ids is in the user's store, then or ever again.
   */
  lemma DeletedStaysDeleted(users: set<UserId>, steps: seq<Step>, e: Envelope, now: nat, more: seq<Step>,
                            hash: Replay.Hash, user: UserId, id: MsgId, m: Msg)
    requires var w := Run(Start(users), steps, hash);
             && user in w.nodes && e in w.wire
             && Taken(w.nodes[user], user, e, hash, now) && Deletes(user, e)
             && id in e.payload.tombstone.value.ids
    requires var v := Run(Next(Run(Start(users), steps, hash), Deliver(user, e, now), hash), more, hash);
             user in v.nodes && m in v.nodes[user].db.messages && m.incoming && m.sender == e.sender
    ensures m.id != id
  {
    hide Run, Inv, Next, Taken, Deletes;
    StartOk(users);
    RunKeeps(Start(users), steps, hash);
    var w := Run(Start(users), steps, hash);
    TombstoneArrives(w, user, e, now, hash);
    PendingStaysAway(Next(w, Deliver(user, e, now), hash), more, hash, user, e.sender, id, m);
  }

  /**
   Deleting for everyone: the own messages under the ids are gone at once, a tombstone for exactly
   those ids is on its way, and when the peer takes it in they are gone there for good.
   */
  lemma DeletedForEveryone(w: World, user: UserId, to: UserId, ids: seq<MsgId>, timestamp: nat, signature: seq<byte>,
                           hash: Replay.Hash, id: MsgId)
    requires Inv(w) && user in w.nodes && id in ids
    requires exists m :: m in w.nodes[user].db.messages && m.id == id && m.sender == user
    ensures var v := Next(w, DeleteForEveryone(user, to, ids, timestamp, signature), hash);
            && Inv(v) && user in v.nodes
            && (forall m :: m in v.nodes[user].db.messages <==>
                  m in w.nodes[user].db.messages && !(m.sender == user && m.id in ids))
            && id in v.nodes[user].db.deleted
            && exists e :: e in v.wire && e.sender == user && e.recipient == to && Deletes(to, e)
                 && id in e.payload.tombstone.value.ids
                 && forall x :: x in e.payload.tombstone.value.ids ==>
                      x in ids && exists m :: m in w.nodes[user].db.messages && m.id == x && m.sender == user
  {
    hide Inv, DeleteByAuthor, DeletedByAuthor, Filter;
    var step := DeleteForEveryone(user, to, ids, timestamp, signature);
    NextKeeps(w, step, hash);
    NodeDbOk(w, user);
    DeleteByAuthorExactly(w.nodes[user].db, ids, user);
    var deleted := DeletedByAuthor(w.nodes[user].db, ids, user);
    assert id in deleted;
    var e := Envelope(user, to, timestamp, signature, TombstonePayload(to, deleted, user));
    assert e in Next(w, step, hash).wire && Deletes(to, e);
  }

  // ----- what arrives and what is answered -----

  /** A delivery does to the user what the envelope does, and owes the acknowledgement it asks for. */
  lemma DeliverExactly(w: World, user: UserId, e: Envelope, now: nat, hash: Replay.Hash)
    requires user in w.nodes && e in w.wire
    ensures var v, h := Next(w, Deliver(user, e, now), hash), HandleEnvelope(w.nodes[user], user, e, hash, now);
            && v.nodes == w.nodes[user := h.node] && v.wire == w.wire
            && (h.ack == None ==> v.acks == w.acks)
            && (h.ack.Some? ==> v.acks == w.acks + {(user, h.ack.value.0, h.ack.value.1)})
  {
    hide HandleEnvelope;
  }

  /** A send begins with an envelope to the peer that will be taken for the text it is; retries send the same. */
  lemma SentOnTheWire(w: World, s: Send, timestamp: nat, signature: seq<byte>, hash: Replay.Hash)
    requires Enabled(w, StartSend(s, timestamp, signature))
    ensures var v := Next(w, StartSend(s, timestamp, signature), hash);
            && v.nodes == w.nodes
            && exists e :: e in v.wire && e.sender == s.from && e.recipient == s.to && IsText(s.to, e)
                 && e.payload.id == s.id && e.payload.text == s.text && e.payload.group == None
  {
    var e := Envelope(s.from, s.to, timestamp, signature, TextPayload(s.id, s.text));
    assert e in Next(w, StartSend(s, timestamp, signature), hash).wire;
  }

  /** Paying it puts a receipt that its recipient will take for one on the wire. */
  lemma AcknowledgeExactly(w: World, user: UserId, to: UserId, id: MsgId, timestamp: nat, signature: seq<byte>,
                           hash: Replay.Hash)
    requires (user, to, id) in w.acks
    ensures var v := Next(w, Acknowledge(user, to, id, timestamp, signature), hash);
            && v.nodes == w.nodes && v.acks == w.acks - {(user, to, id)}
            && exists e :: e in v.wire && e.sender == user && e.recipient == to && Acknowledges(e)
                 && e.payload.receipt.value.messageId == id
  {
    var e := Envelope(user, to, timestamp, signature, ReceiptPayload(id, user));
    assert e in Next(w, Acknowledge(user, to, id, timestamp, signature), hash).wire;
  }

  /** A restart keeps the store, the blocks and what was announced, and forgets everything else. */
  lemma RestartExactly(w: World, user: UserId, now: nat, hash: Replay.Hash)
    requires user in w.nodes
    ensures var n, v := w.nodes[user], Next(w, Restart(user, now), hash);
            && v.nodes == w.nodes[user := Node(n.db, v.nodes[user].outbox, None, map[], n.blocked, n.raised)]
            && (DbOk(n.db) ==> v.nodes[user].outbox == AsQueued(UpTo100(Filter(n.db.messages, Unsent(user))), now))
            && (forall a :: a in v.acks <==> a in w.acks && a.0 != user)
  {
    hide Refill, Filter;
    if DbOk(w.nodes[user].db) {
      RefillExactly(user, w.nodes[user].db.messages, now);
    }
  }

  // ----- what a user does at home -----

  /** Local deletion, clearing a chat, blocking and notes to oneself, as they show in the user's own store. */
  lemma AtHome(w: World, step: Step, hash: Replay.Hash, user: UserId)
    requires Inv(w) && user in w.nodes && Enabled(w, step)
    requires step.DeleteLocally? || step.ClearChat? || step.SetBlocked? || step.SelfNote?
    requires step.user == user
    ensures var n, v := w.nodes[user], Next(w, step, hash);
            && v == w.(nodes := w.nodes[user := v.nodes[user]])
            && match step
               case DeleteLocally(_, ids) =>
                 && v.nodes[user] == n.(db := v.nodes[user].db)
                 && Left(n.db, v.nodes[user].db, (m: Msg) => m.id !in ids)
                 && (forall id :: id in ids ==> id in v.nodes[user].db.deleted)
               case ClearChat(_, contact) =>
                 && v.nodes[user] == n.(db := v.nodes[user].db)
                 && Left(n.db, v.nodes[user].db,
                         (m: Msg) => m.group.Some? || (m.sender != contact && m.recipient != contact))
                 && (forall m :: m in n.db.messages && m !in v.nodes[user].db.messages ==>
                       m.id in v.nodes[user].db.deleted)
               case SetBlocked(_, blocked) => v.nodes[user] == n.(blocked := blocked)
               case SelfNote(_, to, id, text, timestamp) =>
                 && v.nodes[user] == n.(db := v.nodes[user].db)
                 && (id !in n.db.deleted ==>
                       forall x :: x in v.nodes[user].db.messages <==>
                         x == Msg(id, user, to, text, None, timestamp, false, true)
                         || (x in n.db.messages && x.id != id))
               case _ => true
  {
    hide Inv, Filter, Add, ClearFor, DeleteAll;
    NodeDbOk(w, user);
    match step
    case DeleteLocally(_, ids) => DeleteAllExactly(w.nodes[user].db, ids);
    case ClearChat(_, contact) => ClearForExactly(w.nodes[user].db, contact);
    case SelfNote(_, to, id, text, timestamp) =>
      AddExactly(w.nodes[user].db, Outgoing(user, to, id, text, timestamp));
    case _ =>
  }

  /** An edit at home changes the text, whoever wrote it, and tells the peer. */
  lemma EditAtHome(w: World, user: UserId, to: UserId, id: MsgId, text: string, timestamp: nat, signature: seq<byte>,
                   hash: Replay.Hash)
    requires Inv(w) && user in w.nodes && to != user
    ensures var v := Next(w, Edit(user, to, id, text, timestamp, signature), hash);
            && user in v.nodes
            && Changed(w.nodes[user].db, v.nodes[user].db, (m: Msg) => if m.id == id then m.(text := text) else m)
            && exists e :: e in v.wire && e.sender == user && e.recipient == to && e.payload.id == id
                 && e.payload.text == text && (id != "" ==> Corrects(to, e))
  {
    hide Inv, EditText, Rewritten, EffectiveId, Changed;
    NodeDbOk(w, user);
    EditTextExactly(w.nodes[user].db, id, text);
    var e := Envelope(user, to, timestamp, signature, EditPayload(id, text));
    assert e in Next(w, Edit(user, to, id, text, timestamp, signature), hash).wire;
  }

  /** Reactions and call signals reach the peer as what they are, unless the emoji is invalid. */
  lemma LiveOnTheWire(w: World, user: UserId, to: UserId, id: MsgId, text: string, timestamp: nat,
                      signature: seq<byte>, hash: Replay.Hash)
    requires user in w.nodes
    ensures exists e :: e in Next(w, Signal(user, to, id, text, timestamp, signature), hash).wire
              && e.sender == user && e.recipient == to && IsLive(to, e)
    ensures exists e :: e in Next(w, React(user, to, id, text, timestamp, signature), hash).wire
              && e.sender == user && e.recipient == to && (if 1 <= |text| <= 4 then IsLive(to, e) else IsText(to, e))
  {
    var call := Envelope(user, to, timestamp, signature, CallPayload(id, text));
    assert call in Next(w, Signal(user, to, id, text, timestamp, signature), hash).wire;
    var reaction := Envelope(user, to, timestamp, signature, ReactionPayload(id, text));
    assert reaction in Next(w, React(user, to, id, text, timestamp, signature), hash).wire;
  }

  // ----- restart -----

  /** The worker hands over and reschedules, again and again. */
  function Rounds(user: UserId, now: nat, signature: seq<byte>, n: nat): seq<Step> {
    if n == 0 then [] else [Work(user, now, signature), Reschedule(user)] + Rounds(user, now, signature, n - 1)
  }

  /** One round hands over the head of the queue, if it is due, and puts it back at the end. */
  lemma OneRound(w: World, user: UserId, now: nat, signature: seq<byte>, hash: Replay.Hash, q: Outbox.Queued,
                 rest: Outbox.Queue)
    requires user in w.nodes && w.nodes[user].inFlight.None? && w.nodes[user].outbox == [q] + rest
    requires q.status == Outbox.Sending && q.nextRetryAt <= now
    ensures var v := Next(Next(w, Work(user, now, signature), hash), Reschedule(user), hash);
            && user in v.nodes && v.nodes[user].inFlight.None? && w.wire <= v.wire
            && Envelope(user, q.recipient, now, signature, TextPayload(q.id, q.text)) in v.wire
            && exists back :: v.nodes[user].outbox == rest + [back]
  {
    hide Outbox.Rescheduled;
    PopHead(q, rest, now);
    hide Outbox.Pop;
  }

  lemma PopHead(q: Outbox.Queued, rest: Outbox.Queue, now: nat)
    requires q.status == Outbox.Sending && q.nextRetryAt <= now
    ensures Outbox.Pop([q] + rest, now) == (rest, Some(q.(attempts := q.attempts + 1)))
  {
    assert ([q] + rest)[0] == q;
    assert Outbox.FirstDue([q] + rest, now) == 0;
    assert ([q] + rest)[..0] + ([q] + rest)[1..] == rest;
  }

  lemma {:induction false} HandsOver(w: World, user: UserId, now: nat, signature: seq<byte>, hash: Replay.Hash,
                                     due: Outbox.Queue, rest: Outbox.Queue, q: Outbox.Queued)
    requires user in w.nodes && w.nodes[user].inFlight.None? && w.nodes[user].outbox == due + rest
    requires forall i :: 0 <= i < |due| ==> due[i].status == Outbox.Sending && due[i].nextRetryAt <= now
    requires q in due
    ensures Envelope(user, q.recipient, now, signature, TextPayload(q.id, q.text))
            in Run(w, Rounds(user, now, signature, |due|), hash).wire
    decreases |due|
  {
    hide Next, TextPayload;
    var first, others := due[0], due[1..];
    assert due + rest == [first] + (others + rest);
    OneRound(w, user, now, signature, hash, first, others + rest);
    var v := Next(Next(w, Work(user, now, signature), hash), Reschedule(user), hash);
    RoundsFirst(w, user, now, signature, hash, |due|);
    var back :| v.nodes[user].outbox == others + rest + [back];
    if q == first {
      WireGrowsOverRuns(v, Rounds(user, now, signature, |others|), hash);
    } else {
      assert others + (rest + [back]) == others + rest + [back];
      HandsOver(v, user, now, signature, hash, others, rest + [back], q);
    }
  }

  lemma RoundsFirst(w: World, user: UserId, now: nat, signature: seq<byte>, hash: Replay.Hash, n: nat)
    requires n > 0
    ensures Run(w, Rounds(user, now, signature, n), hash)
         == Run(Next(Next(w, Work(user, now, signature), hash), Reschedule(user), hash),
                Rounds(user, now, signature, n - 1), hash)
  {
    hide Next;
    var steps, more := Rounds(user, now, signature, n), Rounds(user, now, signature, n - 1);
    assert steps[1..] == [Reschedule(user)] + more && steps[1..][1..] == more;
  }

  lemma WireGrows(w: World, step: Step, hash: Replay.Hash)
    ensures w.wire <= Next(w, step, hash).wire
  {
    hide HandleEnvelope, DeleteByAuthor, DeletedByAuthor, DeleteAll, ClearFor, EditText, Rewritten, EffectiveId, Add,
      Refill, Outbox.Pop, Outbox.Push, Outbox.Rescheduled;
  }

  lemma {:induction false} WireGrowsOverRuns(w: World, steps: seq<Step>, hash: Replay.Hash)
    ensures w.wire <= Run(w, steps, hash).wire
    decreases |steps|
  {
    hide Next;
    if steps != [] {
      WireGrows(w, steps[0], hash);
      WireGrowsOverRuns(Next(w, steps[0], hash), steps[1..], hash);
    }
  }

  /**
   Nothing unacknowledged is lost by a restart: whatever happened before, as long as at most a
   hundred messages to peers are unacknowledged, the worker hands each of them over again.
   */
  lemma HandedOverAfterRestart(w: World, user: UserId, m: Msg, now: nat, signature: seq<byte>, hash: Replay.Hash)
    requires Inv(w) && user in w.nodes && m in w.nodes[user].db.messages
    requires !m.incoming && !m.delivered && m.recipient != "self_saved_messages" && m.recipient != user
    requires |Filter(w.nodes[user].db.messages, Unsent(user))| <= 100
    ensures var v := Next(w, Restart(user, now), hash);
            && user in v.nodes && |v.nodes[user].outbox| <= 100
            && Envelope(user, m.recipient, now, signature, TextPayload(m.id, m.text))
               in Run(v, Rounds(user, now, signature, |v.nodes[user].outbox|), hash).wire
  {
    hide Inv, Filter, TextPayload, Rounds, Run, Refill;
    var ms := w.nodes[user].db.messages;
    NodeDbOk(w, user);
    RefillExactly(user, ms, now);
    var unsent := Filter(ms, Unsent(user));
    InFilter(ms, m, Unsent(user));
    var i :| 0 <= i < |unsent| && unsent[i] == m;
    var v := Next(w, Restart(user, now), hash);
    var q := v.nodes[user].outbox;
    assert q == AsQueued(unsent, now) && q + [] == q;
    HandsOver(v, user, now, signature, hash, q, [], q[i]);
  }

  lemma InFilter(ms: seq<Msg>, m: Msg, p: Msg -> bool)
    requires m in ms && p(m)
    ensures m in Filter(ms, p)
  {
  }
}
