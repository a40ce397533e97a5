/**
 The message store of a messenger (nodex-messenger/src/db.rs), reduced to the fields delivery
 and deletion depend on, and what tombstones guarantee.
 */
module MessengerDbs {
  import opened Bytes
  import opened Sequences

  type UserId = string
  type MsgId = string

  datatype Msg = Msg(id: MsgId, sender: UserId, recipient: UserId, text: string, group: Option<string>,
                     timestamp: nat, incoming: bool, delivered: bool)

  datatype Db = Db(messages: seq<Msg>, deleted: set<MsgId>, pending: set<(UserId, MsgId)>)

  const EMPTY_DB: Db := Db([], {}, {})

  /** Position of the first message with this id, or the length. */
  function PositionOf(ms: seq<Msg>, id: MsgId): (i: nat)
    ensures i <= |ms|
    ensures i < |ms| ==> ms[i].id == id
    ensures forall k :: 0 <= k < i ==> ms[k].id != id
  {
    First(ms, (m: Msg) => m.id == id)
  }

  predicate Has(ms: seq<Msg>, id: MsgId) {
    exists i :: 0 <= i < |ms| && ms[i].id == id
  }

  function Add(db: Db, m: Msg): Db {
    if m.id in db.deleted then db
    else
      var i := PositionOf(db.messages, m.id);
      db.(messages := if i < |db.messages| then db.messages[i := m] else db.messages + [m])
  }

  function MarkDelivered(db: Db, id: MsgId): Db {
    var i := PositionOf(db.messages, id);
    if i < |db.messages| then db.(messages := db.messages[i := db.messages[i].(delivered := true)]) else db
  }

  function EditText(db: Db, id: MsgId, text: string): Db {
    var i := PositionOf(db.messages, id);
    if i < |db.messages| then db.(messages := db.messages[i := db.messages[i].(text := text)]) else db
  }

  /** An edit received changes the text of its author's own message and nothing else. */
  function EditByAuthor(db: Db, id: MsgId, text: string, author: UserId): Db {
    var i := PositionOf(db.messages, id);
    if i < |db.messages| && db.messages[i].sender == author then EditText(db, id, text) else db
  }

  /** `retain`: the messages that are not among those to go. */
  function Without(ms: seq<Msg>, gone: set<Msg>): (r: seq<Msg>)
    ensures forall m :: m in r <==> m in ms && m !in gone
  {
    Filter(ms, (m: Msg) => m !in gone)
  }

  function IdSet(ids: seq<MsgId>): set<MsgId> {
    set id | id in ids
  }

  function WithIds(ms: seq<Msg>, ids: set<MsgId>): set<Msg> {
    set m | m in ms && m.id in ids
  }

  /** Group messages are not part of the chat with a contact. */
  function Concerning(ms: seq<Msg>, contact: UserId): set<Msg> {
    set m | m in ms && m.group.None? && (m.sender == contact || m.recipient == contact)
  }

  function IdsOf(ms: set<Msg>): set<MsgId> {
    set m | m in ms :: m.id
  }

  function DeleteAll(db: Db, ids: seq<MsgId>): Db {
    db.(deleted := db.deleted + IdSet(ids), messages := Without(db.messages, WithIds(db.messages, IdSet(ids))))
  }

  function ClearFor(db: Db, contact: UserId): Db {
    var gone := Concerning(db.messages, contact);
    db.(deleted := db.deleted + IdsOf(gone), messages := Without(db.messages, gone))
  }

  /** Deletion of one id on its author's word: nobody else's message is touched. */
  function DeleteOneByAuthor(db: Db, id: MsgId, author: UserId): Db {
    var i := PositionOf(db.messages, id);
    if i < |db.messages| && db.messages[i].sender == author then
      db.(deleted := db.deleted + {id}, messages := db.messages[..i] + db.messages[i + 1..])
    else db
  }

  function DeleteByAuthor(db: Db, ids: seq<MsgId>, author: UserId): Db {
    if ids == [] then db
    else DeleteOneByAuthor(DeleteByAuthor(db, ids[..|ids| - 1], author), ids[|ids| - 1], author)
  }

  /** The ids among them that were actually deleted. */
  function DeletedByAuthor(db: Db, ids: seq<MsgId>, author: UserId): seq<MsgId> {
    if ids == [] then []
    else
      var init, last := ids[..|ids| - 1], ids[|ids| - 1];
      var ms := DeleteByAuthor(db, init, author).messages;
      var i := PositionOf(ms, last);
      DeletedByAuthor(db, init, author) + (if i < |ms| && ms[i].sender == author then [last] else [])
  }

  function RegisterPending(db: Db, author: UserId, ids: seq<MsgId>): Db {
    db.(pending := db.pending + set id | id in ids :: (author, id))
  }

  predicate IsTombstoned(db: Db, author: UserId, id: MsgId) {
    id in db.deleted || (author, id) in db.pending
  }

  class MessengerDb {
    var messages: seq<Msg>
    var deletedMessageIds: set<MsgId>
    var pendingTombstones: set<(UserId, MsgId)>

    function View(): Db
      reads this
    {
      Db(messages, deletedMessageIds, pendingTombstones)
    }

    constructor ()
      ensures View() == EMPTY_DB
    {
      messages, deletedMessageIds, pendingTombstones := [], {}, {};
    }

    method AddMessage(m: Msg)
      modifies this
      ensures View() == Add(old(View()), m)
    {
      if m.id in deletedMessageIds {
        return;
      }
      var pos := PositionOf(messages, m.id);
      if pos < |messages| {
        messages := messages[pos := m];
      } else {
        messages := messages + [m];
      }
    }

    method MarkMessageDelivered(id: MsgId)
      modifies this
      ensures View() == MarkDelivered(old(View()), id)
    {
      var pos := PositionOf(messages, id);
      if pos < |messages| {
        messages := messages[pos := messages[pos].(delivered := true)];
      }
    }

    method EditMessage(id: MsgId, text: string) returns (ok: bool)
      modifies this
      ensures View() == EditText(old(View()), id, text)
      ensures ok <==> Has(old(messages), id)
    {
      var pos := PositionOf(messages, id);
      if pos < |messages| {
        messages := messages[pos := messages[pos].(text := text)];
        return true;
      }
      return false;
    }

    method EditMessageByAuthor(id: MsgId, text: string, author: UserId) returns (ok: bool)
      modifies this
      ensures View() == EditByAuthor(old(View()), id, text, author)
      ensures var ms := old(messages);
              ok <==> PositionOf(ms, id) < |ms| && ms[PositionOf(ms, id)].sender == author
    {
      var pos := PositionOf(messages, id);
      if pos < |messages| {
        if messages[pos].sender != author {
          return false;
        }
        messages := messages[pos := messages[pos].(text := text)];
        return true;
      }
      return false;
    }

    method DeleteMessages(ids: seq<MsgId>)
      modifies this
      ensures View() == DeleteAll(old(View()), ids)
    {
      for i := 0 to |ids|
        invariant messages == old(messages) && pendingTombstones == old(pendingTombstones)
        invariant deletedMessageIds == old(deletedMessageIds) + IdSet(ids[..i])
      {
        assert ids[..i + 1] == ids[..i] + [ids[i]];
        deletedMessageIds := deletedMessageIds + {ids[i]};
      }
      assert ids[..|ids|] == ids;
      messages := Without(messages, WithIds(messages, IdSet(ids)));
    }

    method DeleteMessagesByAuthor(ids: seq<MsgId>, author: UserId) returns (deleted: seq<MsgId>)
      modifies this
      ensures View() == DeleteByAuthor(old(View()), ids, author)
      ensures deleted == DeletedByAuthor(old(View()), ids, author)
    {
      hide PositionOf;
      deleted := [];
      for i := 0 to |ids|
        invariant View() == DeleteByAuthor(old(View()), ids[..i], author)
        invariant deleted == DeletedByAuthor(old(View()), ids[..i], author)
      {
        assert ids[..i + 1][..i] == ids[..i];
        var pos := PositionOf(messages, ids[i]);
        if pos < |messages| {
          if messages[pos].sender == author {
            deletedMessageIds := deletedMessageIds + {ids[i]};
            messages := messages[..pos] + messages[pos + 1..];
            deleted := deleted + [ids[i]];
          }
        }
      }
      assert ids[..|ids|] == ids;
    }

    method RegisterPendingTombstones(author: UserId, ids: seq<MsgId>)
      modifies this
      ensures View() == RegisterPending(old(View()), author, ids)
    {
      for i := 0 to |ids|
        invariant messages == old(messages) && deletedMessageIds == old(deletedMessageIds)
        invariant pendingTombstones == old(pendingTombstones) + set id | id in ids[..i] :: (author, id)
      {
        assert ids[..i + 1] == ids[..i] + [ids[i]];
        pendingTombstones := pendingTombstones + {(author, ids[i])};
      }
      assert ids[..|ids|] == ids;
    }

    method ClearMessagesForContact(contact: UserId)
      modifies this
      ensures View() == ClearFor(old(View()), contact)
    {
      for i := 0 to |messages|
        invariant messages == old(messages) && pendingTombstones == old(pendingTombstones)
        invariant deletedMessageIds == old(deletedMessageIds) + IdsOf(Concerning(messages[..i], contact))
      {
        assert messages[..i + 1] == messages[..i] + [messages[i]];
        if messages[i].group.None? && (messages[i].sender == contact || messages[i].recipient == contact) {
          deletedMessageIds := deletedMessageIds + {messages[i].id};
        }
      }
      assert messages[..|messages|] == messages;
      messages := Without(messages, Concerning(messages, contact));
    }
  }

  // ----- what an incoming text or tombstone does -----

  function Incoming(me: UserId, sender: UserId, id: MsgId, text: string, group: Option<string>, timestamp: nat): Msg {
    Msg(id, sender, me, text, group, timestamp, true, true)
  }

  datatype TextResult = TextResult(db: Db, isNew: bool, shouldAck: bool)

  function HandleText(db: Db, m: Msg): TextResult {
    if IsTombstoned(db, m.sender, m.id) then TextResult(db, false, false)
    else
      var after := Add(db, m);
      TextResult(after, |after.messages| > |db.messages|, true)
  }

  function HandleTombstone(db: Db, author: UserId, ids: seq<MsgId>): Db {
    RegisterPending(DeleteByAuthor(db, ids, author), author, ids)
  }

  // ----- invariants -----

  ghost predicate DistinctMessages(ms: seq<Msg>) {
    forall i, j :: 0 <= i < j < |ms| ==> ms[i].id != ms[j].id
  }

  /** Ids are distinct and never those of deleted messages. */
  ghost predicate DbOk(db: Db) {
    && DistinctMessages(db.messages)
    && forall m :: m in db.messages ==> m.id !in db.deleted
  }

  /** Nobody's message is present under an id its author has tombstoned. */
  ghost predicate TombstonesHold(db: Db) {
    forall m :: m in db.messages ==> (m.sender, m.id) !in db.pending
  }

  lemma AddKeeps(db: Db, m: Msg)
    requires DbOk(db)
    ensures DbOk(Add(db, m))
    ensures m.id !in db.deleted ==> m in Add(db, m).messages
    ensures forall x :: x in Add(db, m).messages
              ==> x == m || (x in db.messages && (m.id in db.deleted || x.id != m.id))
    ensures forall x :: x in db.messages && x.id != m.id ==> x in Add(db, m).messages
    ensures |Add(db, m).messages| > |db.messages| <==> m.id !in db.deleted && !Has(db.messages, m.id)
  {
    var i, ms := PositionOf(db.messages, m.id), db.messages;
    if m.id !in db.deleted {
      var r := Add(db, m).messages;
      assert r[if i < |ms| then i else |ms|] == m;
      forall x | x in ms && x.id != m.id ensures x in r {
        var k :| 0 <= k < |ms| && ms[k] == x;
        assert r[k] == x;
      }
    }
  }

  lemma {:induction false} WithoutDistinct(ms: seq<Msg>, gone: set<Msg>)
    requires DistinctMessages(ms)
    ensures DistinctMessages(Without(ms, gone))
  {
    if ms != [] {
      var init := ms[..|ms| - 1];
      WithoutDistinct(init, gone);
      forall k | 0 <= k < |Without(init, gone)| ensures Without(init, gone)[k].id != ms[|ms| - 1].id {
        assert Without(init, gone)[k] in init;
      }
    }
  }

  lemma DeleteAllKeeps(db: Db, ids: seq<MsgId>)
    requires DbOk(db)
    ensures DbOk(DeleteAll(db, ids))
  {
    WithoutDistinct(db.messages, WithIds(db.messages, IdSet(ids)));
  }

  /** Clearing a chat deletes its messages, and no other message has one of their ids. */
  lemma ClearForKeeps(db: Db, contact: UserId)
    requires DbOk(db)
    ensures DbOk(ClearFor(db, contact))
  {
    WithoutDistinct(db.messages, Concerning(db.messages, contact));
  }

  lemma DeleteOneByAuthorKeeps(db: Db, id: MsgId, author: UserId)
    requires DbOk(db)
    ensures var r := DeleteOneByAuthor(db, id, author);
            && DbOk(r) && db.deleted <= r.deleted && r.pending == db.pending
            && (forall m :: m in r.messages <==> m in db.messages && !(m.id == id && m.sender == author))
            && (forall x :: x in r.deleted ==>
                  x in db.deleted || (x == id && exists m :: m in db.messages && m.id == x && m.sender == author))
            && (forall m :: m in db.messages && m !in r.messages ==> m.id in r.deleted)
  {
    hide PositionOf, DistinctMessages;
    var i, ms := PositionOf(db.messages, id), db.messages;
    if i < |ms| && ms[i].sender == author {
      assert ms[i] in ms;
      CutOne(ms, i);
    } else if i < |ms| {
      SoleHolder(ms, i);
    }
  }

  lemma CutOne(ms: seq<Msg>, i: nat)
    requires i < |ms| && DistinctMessages(ms)
    ensures var r := ms[..i] + ms[i + 1..];
            DistinctMessages(r) && forall m :: m in r <==> m in ms && m.id != ms[i].id
    ensures forall m :: m in ms && m.id == ms[i].id ==> m == ms[i]
  {
  }

  lemma SoleHolder(ms: seq<Msg>, i: nat)
    requires i < |ms| && DistinctMessages(ms)
    ensures forall m :: m in ms && m.id == ms[i].id ==> m == ms[i]
  {
  }

  lemma {:induction false} DeleteByAuthorKeeps(db: Db, ids: seq<MsgId>, author: UserId)
    requires DbOk(db)
    ensures var r := DeleteByAuthor(db, ids, author);
            && DbOk(r) && db.deleted <= r.deleted && r.pending == db.pending
            && (forall m :: m in r.messages <==> m in db.messages && !(m.id in ids && m.sender == author))
            && (forall x :: x in r.deleted ==>
                  x in db.deleted || (x in ids && exists m :: m in db.messages && m.id == x && m.sender == author))
            && (forall m :: m in db.messages && m !in r.messages ==> m.id in r.deleted)
  {
    hide DbOk, DeleteOneByAuthor;
    if ids != [] {
      var init, last := ids[..|ids| - 1], ids[|ids| - 1];
      DeleteByAuthorKeeps(db, init, author);
      DeleteOneByAuthorKeeps(DeleteByAuthor(db, init, author), last, author);
      assert forall x :: x in ids <==> x in init || x == last;
    }
  }

  lemma {:induction false} DeleteByAuthorPending(db: Db, ids: seq<MsgId>, author: UserId)
    ensures DeleteByAuthor(db, ids, author).pending == db.pending
  {
    hide PositionOf;
    if ids != [] {
      DeleteByAuthorPending(db, ids[..|ids| - 1], author);
    }
  }

  /** A tombstone takes effect at once: no message of its author under its ids is left. */
  lemma HandleTombstoneKeeps(db: Db, author: UserId, ids: seq<MsgId>)
    requires DbOk(db) && TombstonesHold(db)
    ensures var r := HandleTombstone(db, author, ids);
            && DbOk(r) && TombstonesHold(r)
            && (forall id :: id in ids ==> (author, id) in r.pending)
            && (forall m :: m in r.messages <==> m in db.messages && !(m.id in ids && m.sender == author))
            && (forall m :: m in db.messages && m !in r.messages ==> m.id in r.deleted)
  {
    hide DeleteByAuthor;
    DeleteByAuthorKeeps(db, ids, author);
  }

  lemma HandleTextKeeps(db: Db, m: Msg)
    requires DbOk(db) && TombstonesHold(db)
    ensures var r := HandleText(db, m);
            && DbOk(r.db) && TombstonesHold(r.db)
            && (r.shouldAck <==> !IsTombstoned(db, m.sender, m.id))
            && (r.shouldAck ==> m in r.db.messages)
            && (r.isNew <==> r.shouldAck && !Has(db.messages, m.id))
  {
    hide Add;
    AddKeeps(db, m);
    SamePending(db, m);
  }

  // ----- order independence -----

  /** What one author may send. */
  datatype Act = Text(id: MsgId, text: string, group: Option<string>, timestamp: nat) | Tombstone(ids: seq<MsgId>)

  function Handle(db: Db, me: UserId, author: UserId, act: Act): Db {
    match act
    case Text(id, text, group, timestamp) => HandleText(db, Incoming(me, author, id, text, group, timestamp)).db
    case Tombstone(ids) => HandleTombstone(db, author, ids)
  }

  function HandleActs(db: Db, me: UserId, author: UserId, acts: seq<Act>): Db {
    if acts == [] then db else Handle(HandleActs(db, me, author, acts[..|acts| - 1]), me, author, acts[|acts| - 1])
  }

  ghost function TextIds(acts: seq<Act>): set<MsgId> {
    set a | a in acts && a.Text? :: a.id
  }

  ghost function TombstonedIds(acts: seq<Act>): set<MsgId> {
    set a, id | a in acts && a.Tombstone? && id in a.ids :: id
  }

  /** The ids under which messages of this author are present. */
  ghost function Present(db: Db, author: UserId): set<MsgId> {
    set m | m in db.messages && m.sender == author :: m.id
  }

  ghost predicate Dead(db: Db, author: UserId, id: MsgId) {
    IsTombstoned(db, author, id)
  }

  lemma TextPresent(db: Db, me: UserId, author: UserId, id: MsgId, text: string, group: Option<string>, timestamp: nat)
    requires DbOk(db) && TombstonesHold(db)
    ensures var r := HandleText(db, Incoming(me, author, id, text, group, timestamp)).db;
            && Present(r, author) == Present(db, author) + (if Dead(db, author, id) then {} else {id})
            && (forall x :: Dead(r, author, x) == Dead(db, author, x))
  {
    hide Add;
    var m := Incoming(me, author, id, text, group, timestamp);
    AddKeeps(db, m);
    var r := HandleText(db, m).db;
    forall x ensures x in Present(r, author) <==> x in Present(db, author) || (!Dead(db, author, id) && x == id) {
      if x in Present(db, author) && x != id {
        var k :| k in db.messages && k.sender == author && k.id == x;
        assert k in r.messages;
      }
      if x == id && !Dead(db, author, id) {
        assert m in r.messages;
      }
    }
    SamePending(db, m);
  }

  lemma SamePending(db: Db, m: Msg)
    ensures Add(db, m).pending == db.pending && Add(db, m).deleted == db.deleted
  {
  }

  lemma TombstonePresent(db: Db, author: UserId, ids: seq<MsgId>)
    requires DbOk(db) && TombstonesHold(db)
    ensures var r := HandleTombstone(db, author, ids);
            && Present(r, author) == Present(db, author) - IdSet(ids)
            && (forall x :: Dead(r, author, x) <==> Dead(db, author, x) || x in ids)
  {
    hide DeleteByAuthor;
    DeleteByAuthorKeeps(db, ids, author);
    var r := HandleTombstone(db, author, ids);
    forall x ensures x in Present(r, author) <==> x in Present(db, author) && x !in ids {
      if x in Present(db, author) && x !in ids {
        var k :| k in db.messages && k.sender == author && k.id == x;
        assert k in r.messages;
      }
    }
  }

  lemma LastAct(acts: seq<Act>)
    requires acts != []
    ensures var init, last := acts[..|acts| - 1], acts[|acts| - 1];
            && TextIds(acts) == TextIds(init) + (if last.Text? then {last.id} else {})
            && TombstonedIds(acts) == TombstonedIds(init) + (if last.Tombstone? then IdSet(last.ids) else {})
  {
  }

  /**
   The effect of any number of texts and tombstones of one author, in any order and with
   repetitions: present are exactly the ids that were present or sent while not dead from the
   start, without those that were ever tombstoned - before or after the text itself.
   */
  lemma {:induction false} PresentAfter(db: Db, me: UserId, author: UserId, acts: seq<Act>, start: set<MsgId>)
    requires DbOk(db) && TombstonesHold(db)
    requires start == set id | id in TextIds(acts) && !Dead(db, author, id)
    ensures var r := HandleActs(db, me, author, acts);
            && DbOk(r) && TombstonesHold(r)
            && Present(r, author) == Present(db, author) + start - TombstonedIds(acts)
            && (forall id :: Dead(r, author, id) <==> Dead(db, author, id) || id in TombstonedIds(acts))
  {
    hide DbOk, TombstonesHold, Present, Dead, HandleText, HandleTombstone, TextIds, TombstonedIds;
    if acts == [] {
      NoActs();
    } else {
      var init, last := acts[..|acts| - 1], acts[|acts| - 1];
      var before := HandleActs(db, me, author, init);
      PresentAfter(db, me, author, init, set id | id in TextIds(init) && !Dead(db, author, id));
      LastAct(acts);
      match last {
        case Text(id, text, group, timestamp) =>
          HandleTextKeeps(before, Incoming(me, author, id, text, group, timestamp));
          TextPresent(before, me, author, id, text, group, timestamp);
        case Tombstone(ids) =>
          HandleTombstoneKeeps(before, author, ids);
          TombstonePresent(before, author, ids);
      }
    }
  }

  lemma NoActs()
    ensures TextIds([]) == {} && TombstonedIds([]) == {}
  {
  }

  /** Two deliveries of the same acts, in whatever order and multiplicity, leave the same ids. */
  lemma OrderIndependent(db: Db, me: UserId, author: UserId, acts: seq<Act>, others: seq<Act>)
    requires DbOk(db) && TombstonesHold(db)
    requires forall a :: a in acts <==> a in others
    ensures Present(HandleActs(db, me, author, acts), author) == Present(HandleActs(db, me, author, others), author)
    ensures forall id :: id in TombstonedIds(acts) ==> id !in Present(HandleActs(db, me, author, acts), author)
  {
    hide Present, Dead, HandleActs, DbOk, TombstonesHold;
    assert TextIds(acts) == TextIds(others);
    assert TombstonedIds(acts) == TombstonedIds(others);
    var start := set id | id in TextIds(acts) && !Dead(db, author, id);
    PresentAfter(db, me, author, acts, start);
    PresentAfter(db, me, author, others, start);
  }

  ghost function MessagesOf(db: Db, author: UserId): set<Msg> {
    set m | m in db.messages && m.sender == author
  }

  ghost predicate SentAs(me: UserId, author: UserId, acts: seq<Act>, m: Msg) {
    exists a :: a in acts && a.Text? && m == Incoming(me, author, a.id, a.text, a.group, a.timestamp)
  }

  /** Whatever is present from an author was there before or is one of its texts. */
  lemma {:induction false} MessagesWereSent(db: Db, me: UserId, author: UserId, acts: seq<Act>, m: Msg)
    requires DbOk(db) && TombstonesHold(db)
    requires m in MessagesOf(HandleActs(db, me, author, acts), author)
    ensures m in MessagesOf(db, author) || SentAs(me, author, acts, m)
  {
    hide DbOk, TombstonesHold, Present, Dead, Add, HandleTombstone;
    if acts != [] {
      var init, last := acts[..|acts| - 1], acts[|acts| - 1];
      var before := HandleActs(db, me, author, init);
      PresentAfter(db, me, author, init, set id | id in TextIds(init) && !Dead(db, author, id));
      assert forall a :: a in init ==> a in acts;
      match last {
        case Text(id, text, group, timestamp) => AddKeeps(before, Incoming(me, author, id, text, group, timestamp));
        case Tombstone(ids) => HandleTombstoneKeeps(before, author, ids);
      }
      if m in before.messages {
        MessagesWereSent(db, me, author, init, m);
      } else {
        assert last in acts && last.Text?;
      }
    }
  }

  /** No id is used for two different texts. */
  ghost predicate OneTextPerId(acts: seq<Act>) {
    forall a, b :: a in acts && b in acts && a.Text? && b.Text? && a.id == b.id ==> a == b
  }

  /** If moreover each id stands for one text, the very same messages are left. */
  lemma SameMessages(db: Db, me: UserId, author: UserId, acts: seq<Act>, others: seq<Act>)
    requires DbOk(db) && TombstonesHold(db) && MessagesOf(db, author) == {}
    requires (forall a :: a in acts <==> a in others) && OneTextPerId(acts)
    ensures MessagesOf(HandleActs(db, me, author, acts), author)
         == MessagesOf(HandleActs(db, me, author, others), author)
  {
    hide DbOk, TombstonesHold, HandleActs;
    OrderIndependent(db, me, author, acts, others);
    SomeOfTheSame(db, me, author, acts, others);
    SomeOfTheSame(db, me, author, others, acts);
  }

  lemma SomeOfTheSame(db: Db, me: UserId, author: UserId, acts: seq<Act>, others: seq<Act>)
    requires DbOk(db) && TombstonesHold(db) && MessagesOf(db, author) == {}
    requires (forall a :: a in acts <==> a in others) && OneTextPerId(acts)
    requires Present(HandleActs(db, me, author, acts), author) == Present(HandleActs(db, me, author, others), author)
    ensures MessagesOf(HandleActs(db, me, author, acts), author)
         <= MessagesOf(HandleActs(db, me, author, others), author)
  {
    hide DbOk, TombstonesHold, HandleActs;
    var r1, r2 := HandleActs(db, me, author, acts), HandleActs(db, me, author, others);
    forall m | m in MessagesOf(r1, author) ensures m in MessagesOf(r2, author) {
      assert m.id in Present(r1, author);
      var twin :| twin in r2.messages && twin.sender == author && twin.id == m.id;
      MessagesWereSent(db, me, author, acts, m);
      MessagesWereSent(db, me, author, others, twin);
    }
  }
}
