/**
 The two merges a STORE applies to what a node already holds under the key: the one of
 nodex-kademlia/src/lib.rs and the one of deploy/linux/bootstrap-node-lib.rs. JSON is
 abstract: a parser, a printer, and the size each item takes in print.
 */
module Mailbox {
  import opened Bytes
  import opened Sequences

  const MAX_MAILBOX_VALUE_BYTES: nat := 48 * 1024
  const MAX_MAILBOX_ENVELOPES: nat := 50

  datatype Json<!E(==,!new)> = Json(
    parse: seq<byte> -> Option<seq<E>>,
    render: seq<E> -> seq<byte>,
    size: E -> nat)
  {
    /** Printing and parsing are inverse; an array is its items, commas and two brackets. */
    ghost predicate Lawful() {
      forall s :: parse(render(s)) == Some(s) && |render(s)| == ArraySize(size, s)
    }
  }

  function SumSizes<E(==,!new)>(size: E -> nat, s: seq<E>): nat {
    if s == [] then 0 else size(s[0]) + SumSizes(size, s[1..])
  }

  function ArraySize<E(==,!new)>(size: E -> nat, s: seq<E>): nat {
    SumSizes(size, s) + (if s == [] then 2 else |s| + 1)
  }

  /** Existing items, then the incoming ones that are neither oversize nor already there. */
  function Combine<E(==,!new)>(size: E -> nat, items: seq<E>, incoming: seq<E>): seq<E> {
    if incoming == [] then items
    else
      var (init, last) := (incoming[..|incoming| - 1], incoming[|incoming| - 1]);
      var r := Combine(size, items, init);
      if size(last) > MAX_MAILBOX_VALUE_BYTES || last in r then r else r + [last]
  }

  predicate AnyOversize<E(==,!new)>(size: E -> nat, s: seq<E>) {
    exists i :: 0 <= i < |s| && size(s[i]) > MAX_MAILBOX_VALUE_BYTES
  }

  predicate Bounded<E(==,!new)>(size: E -> nat, s: seq<E>) {
    |s| <= MAX_MAILBOX_ENVELOPES && ArraySize(size, s) <= MAX_MAILBOX_VALUE_BYTES
  }

  /** How many items have to go from the front until the rest is within both bounds. */
  function Excess<E(==,!new)>(size: E -> nat, s: seq<E>): (n: nat)
    ensures n <= |s|
    ensures Bounded(size, s[n..])
    ensures forall k :: 0 <= k < n ==> !Bounded(size, s[k..])
  {
    if Bounded(size, s) then 0
    else
      var n := 1 + Excess(size, s[1..]);
      assert forall k :: 1 <= k <= |s| ==> s[k..] == s[1..][k - 1..];
      n
  }

  function OverCount<E(==,!new)>(s: seq<E>): nat {
    if |s| > MAX_MAILBOX_ENVELOPES then |s| - MAX_MAILBOX_ENVELOPES else 0
  }

  function ItemsOf<E(==,!new)>(json: Json<E>, stored: Option<seq<byte>>): seq<E> {
    if stored.Some? && json.parse(stored.value).Some? then json.parse(stored.value).value else []
  }

  /** What is stored after a merge, and whether the sender is told that all was accepted. */
  function Merged<E(==,!new)>(json: Json<E>, existing: Option<seq<byte>>, incoming: seq<byte>): (seq<byte>, bool) {
    match json.parse(incoming)
    case Some(news) =>
      var all := Combine(json.size, ItemsOf(json, existing), news);
      (json.render(all[Excess(json.size, all)..]), !AnyOversize(json.size, news))
    case None =>
      if |incoming| > MAX_VALUE_SIZE then (if existing.Some? then existing.value else [], false)
      else (incoming, true)
  }

  /** A value that is no array replaces whatever was there, up to 65536 bytes; a longer one changes nothing. */
  lemma PlainReplaces<E(!new)>(json: Json<E>, existing: Option<seq<byte>>, incoming: seq<byte>)
    requires json.parse(incoming).None?
    ensures |incoming| <= 65536 ==> Merged(json, existing, incoming) == (incoming, true)
    ensures |incoming| > 65536 ==> !Merged(json, existing, incoming).1
    ensures |incoming| > 65536 && existing.Some? ==> Merged(json, existing, incoming).0 == existing.value
  {
  }

  // ----- the loops both implementations share in shape -----

  /** Push every incoming item that is new and not oversize. */
  method PushUnseen<E(==,!new)>(size: E -> nat, items: seq<E>, incoming: seq<E>)
    returns (envelopes: seq<E>, rejected: bool)
    ensures envelopes == Combine(size, items, incoming)
    ensures rejected == AnyOversize(size, incoming)
  {
    envelopes, rejected := items, false;
    for i := 0 to |incoming|
      invariant envelopes == Combine(size, items, incoming[..i])
      invariant rejected == exists j :: 0 <= j < i && size(incoming[j]) > MAX_MAILBOX_VALUE_BYTES
    {
      assert incoming[..i + 1][..i] == incoming[..i];
      var envelope := incoming[i];
      if size(envelope) > MAX_MAILBOX_VALUE_BYTES {
        rejected := true;
        continue;
      }
      if envelope !in envelopes {
        envelopes := envelopes + [envelope];
      }
    }
    assert incoming[..|incoming|] == incoming;
  }

  /** Remove from the front while the printed array is too long. */
  method PruneToSize<E(==,!new)>(json: Json<E>, start: seq<E>)
    returns (envelopes: seq<E>, encoded: seq<byte>, pruned: nat)
    requires json.Lawful() && |start| <= MAX_MAILBOX_ENVELOPES
    ensures pruned == Excess(json.size, start)
    ensures envelopes == start[pruned..] && encoded == json.render(envelopes)
    ensures |encoded| <= MAX_MAILBOX_VALUE_BYTES
  {
    hide Excess, Json.Lawful;
    envelopes, encoded, pruned := start, json.render(start), 0;
    while |encoded| > MAX_MAILBOX_VALUE_BYTES && envelopes != []
      invariant pruned <= |start|
      invariant envelopes == start[pruned..] && encoded == json.render(envelopes)
      invariant Excess(json.size, start) == pruned + Excess(json.size, start[pruned..])
      decreases |envelopes|
    {
      DropFirst(json, envelopes);
      DroppedSuffix(start, pruned);
      envelopes := envelopes[1..];
      pruned := pruned + 1;
      encoded := json.render(envelopes);
    }
    NothingToDrop(json, envelopes);
  }

  lemma DroppedSuffix<E>(s: seq<E>, n: nat)
    requires n < |s|
    ensures s[n..][1..] == s[n + 1..] && |s[n..]| == |s[n + 1..]| + 1
  {
  }

  /** An array that prints too large has its first item dropped. */
  lemma DropFirst<E(!new)>(json: Json<E>, s: seq<E>)
    requires json.Lawful() && s != [] && |json.render(s)| > MAX_MAILBOX_VALUE_BYTES
    ensures Excess(json.size, s) == 1 + Excess(json.size, s[1..])
  {
    hide SumSizes;
  }

  lemma NothingToDrop<E(!new)>(json: Json<E>, s: seq<E>)
    requires json.Lawful() && |s| <= MAX_MAILBOX_ENVELOPES
    requires |json.render(s)| <= MAX_MAILBOX_VALUE_BYTES || s == []
    ensures Excess(json.size, s) == 0 && |json.render(s)| <= MAX_MAILBOX_VALUE_BYTES
  {
  }

  /** Dropping part of the overflow and then the rest's excess is dropping the excess. */
  lemma DropThenPrune<E(!new)>(size: E -> nat, s: seq<E>, n: nat)
    requires n <= OverCount(s)
    ensures n + Excess(size, s[n..]) == Excess(size, s)
    ensures s[n..][Excess(size, s[n..])..] == s[Excess(size, s)..]
  {
    hide Excess;
    CountExcessFirst(size, s, n);
  }

  /**
   `merge_store_value`: drains the overflow over 50 uncounted, then prunes to size. The source's
   guard behind the pruning loop never fires: the empty array prints in two bytes.
   */
  method MergeStoreValue<E(==,!new)>(json: Json<E>, existing: Option<seq<byte>>, incoming: seq<byte>)
    returns (value: seq<byte>, accepted: bool, pruned: nat)
    requires json.Lawful()
    ensures (value, accepted) == Merged(json, existing, incoming)
    ensures json.parse(incoming).None? ==> pruned == 0
    ensures json.parse(incoming).Some? ==>
              var all := Combine(json.size, ItemsOf(json, existing), json.parse(incoming).value);
              pruned == Excess(json.size, all) - OverCount(all)
  {
    hide Combine, Excess, AnyOversize, Json.Lawful;
    var parsed := json.parse(incoming);
    if parsed.Some? {
      var envelopes, rejected := PushUnseen(json.size, ItemsOf(json, existing), parsed.value);
      ghost var all := envelopes;
      if |envelopes| > MAX_MAILBOX_ENVELOPES {
        var excess := |envelopes| - MAX_MAILBOX_ENVELOPES;
        envelopes := envelopes[excess..];
      }
      assert envelopes == all[OverCount(all)..];
      DropThenPrune(json.size, all, OverCount(all));
      var encoded;
      envelopes, encoded, pruned := PruneToSize(json, envelopes);
      return encoded, !rejected, pruned;
    }
    if |incoming| > MAX_VALUE_SIZE {
      return if existing.Some? then existing.value else [], false, 0;
    }
    return incoming, true, 0;
  }

  /** `bounded_mailbox_merge`: removes the overflow one by one and counts it as pruned. */
  method BoundedMailboxMerge<E(==,!new)>(json: Json<E>, existing: Option<seq<byte>>, incoming: seq<byte>)
    returns (value: seq<byte>, accepted: bool, pruned: nat)
    requires json.Lawful()
    ensures (value, accepted) == Merged(json, existing, incoming)
    ensures json.parse(incoming).None? ==> pruned == 0
    ensures json.parse(incoming).Some? ==>
              pruned == Excess(json.size, Combine(json.size, ItemsOf(json, existing), json.parse(incoming).value))
  {
    hide Combine, Excess, AnyOversize, Json.Lawful;
    var parsed := json.parse(incoming);
    if parsed.None? {
      if |incoming| <= MAX_VALUE_SIZE {
        return incoming, true, 0;
      }
      return if existing.Some? then existing.value else [], false, 0;
    }
    var envelopes, rejected := PushUnseen(json.size, ItemsOf(json, existing), parsed.value);
    ghost var all := envelopes;
    pruned := 0;
    while |envelopes| > MAX_MAILBOX_ENVELOPES
      invariant pruned <= OverCount(all) && envelopes == all[pruned..]
    {
      envelopes := envelopes[1..];
      pruned := pruned + 1;
    }
    DropThenPrune(json.size, all, pruned);
    var encoded, more;
    envelopes, encoded, more := PruneToSize(json, envelopes);
    pruned := pruned + more;
    return encoded, !rejected, pruned;
  }

  /** Dropping the overflow over 50 first does not change where the pruning ends. */
  lemma {:induction false} CountExcessFirst<E(!new)>(size: E -> nat, s: seq<E>, n: nat)
    requires n <= OverCount(s)
    ensures Excess(size, s) == n + Excess(size, s[n..])
  {
    if n > 0 {
      CountExcessFirst(size, s[1..], n - 1);
      assert s[1..][n - 1..] == s[n..];
    } else {
      assert s[0..] == s;
    }
  }

  // ----- what a merge means -----

  lemma {:induction false} CombineMembers<E(!new)>(size: E -> nat, items: seq<E>, incoming: seq<E>, x: E)
    ensures items <= Combine(size, items, incoming)
    ensures x in Combine(size, items, incoming)
            <==> x in items || (x in incoming && size(x) <= MAX_MAILBOX_VALUE_BYTES)
  {
    if incoming != [] {
      var init, last := incoming[..|incoming| - 1], incoming[|incoming| - 1];
      CombineMembers(size, items, init, x);
      CombineMembers(size, items, init, last);
      assert incoming == init + [last];
    }
  }

  /** Dropping an item from the front never makes the array longer, so suffixes stay bounded. */
  lemma {:induction false} SuffixBounded<E(!new)>(size: E -> nat, s: seq<E>, n: nat)
    requires Bounded(size, s) && n <= |s|
    ensures Bounded(size, s[n..])
  {
    if n > 0 {
      SuffixBounded(size, s[1..], n - 1);
      assert s[1..][n - 1..] == s[n..];
    } else {
      assert s[0..] == s;
    }
  }

  /**
   The stored array is the longest suffix of what was there followed by what is new that has
   at most 50 items and at most 48 KiB in print: a suffix is bounded exactly if it is no longer.
   */
  lemma LongestBoundedSuffix<E(!new)>(size: E -> nat, s: seq<E>, n: nat)
    requires n <= |s|
    ensures Bounded(size, s[n..]) <==> Excess(size, s) <= n
  {
    if Excess(size, s) <= n {
      var e := Excess(size, s);
      SuffixBounded(size, s[e..], n - e);
      assert s[e..][n - e..] == s[n..];
    }
  }

  /** The two implementations always store the same value and give the same answer. */
  method BothAgree<E(==,!new)>(json: Json<E>, existing: Option<seq<byte>>, incoming: seq<byte>)
    returns (nodeValue: seq<byte>, nodePruned: nat, bootstrapValue: seq<byte>, bootstrapPruned: nat)
    requires json.Lawful()
    ensures nodeValue == bootstrapValue
    ensures json.parse(incoming).None? ==> nodePruned == bootstrapPruned
    ensures json.parse(incoming).Some? ==>
              bootstrapPruned - nodePruned
              == OverCount(Combine(json.size, ItemsOf(json, existing), json.parse(incoming).value))
  {
    var acc1, acc2;
    nodeValue, acc1, nodePruned := MergeStoreValue(json, existing, incoming);
    bootstrapValue, acc2, bootstrapPruned := BoundedMailboxMerge(json, existing, incoming);
    assert acc1 == acc2;
  }

  /**
   The newest item survives a merge exactly if it leaves room for the brackets: an item of
   48 KiB - 1 or 48 KiB bytes is not refused as oversize, yet empties the mailbox.
   */
  lemma NewestSurvives<E(!new)>(size: E -> nat, s: seq<E>)
    requires s != []
    ensures Excess(size, s) < |s| <==> size(s[|s| - 1]) <= MAX_MAILBOX_VALUE_BYTES - 2
    ensures Excess(size, s) == |s| <==> s[Excess(size, s)..] == []
  {
    LongestBoundedSuffix(size, s, |s| - 1);
    assert s[|s| - 1..] == [s[|s| - 1]];
    assert SumSizes(size, [s[|s| - 1]]) == size(s[|s| - 1]);
  }

  /**
   An incoming item new to the mailbox and last of its batch is stored, or it empties the mailbox
   although it is not refused as oversize, or it is refused.
   */
  lemma DepositOutcome<E(!new)>(json: Json<E>, existing: Option<seq<byte>>, news: seq<E>, x: E)
    requires json.Lawful() && x !in ItemsOf(json, existing) && x !in news
    ensures var (value, accepted) := Merged(json, existing, json.render(news + [x]));
            && (json.size(x) <= 49150 ==> x in ItemsOf(json, Some(value)))
            && (49150 < json.size(x) <= 49152 ==> value == json.render([]))
            && (accepted <==> !AnyOversize(json.size, news) && json.size(x) <= 49152)
  {
    hide Excess, SumSizes;
    var items := ItemsOf(json, existing);
    var before, all := Combine(json.size, items, news), Combine(json.size, items, news + [x]);
    assert (news + [x])[..|news|] == news;
    CombineMembers(json.size, items, news, x);
    OversizeAppend(json.size, news, x);
    if json.size(x) <= MAX_MAILBOX_VALUE_BYTES {
      assert all == before + [x];
      NewestSurvives(json.size, all);
      var e := Excess(json.size, all);
      if e < |all| {
        assert all[e..][|all| - 1 - e] == x;
      } else {
        assert all[e..] == [];
      }
    }
  }

  lemma OversizeAppend<E(!new)>(size: E -> nat, s: seq<E>, x: E)
    ensures AnyOversize(size, s + [x]) <==> AnyOversize(size, s) || size(x) > MAX_MAILBOX_VALUE_BYTES
  {
    if i :| 0 <= i < |s| && size(s[i]) > MAX_MAILBOX_VALUE_BYTES {
      assert (s + [x])[i] == s[i];
    }
    assert (s + [x])[|s|] == x;
  }

  // ----- what a sender deposits (nodex-messenger/src/messenger.rs) -----

  const MAX_DEPOSITED_ENVELOPES: nat := 30

  /** The mailbox a sender puts: what it found, its envelope unless there, the last 30 of it. */
  function Deposited<E(==,!new)>(same: (E, E) -> bool, found: seq<E>, envelope: E): seq<E> {
    var all := if exists i :: 0 <= i < |found| && same(found[i], envelope) then found else found + [envelope];
    if |all| > MAX_DEPOSITED_ENVELOPES then all[|all| - MAX_DEPOSITED_ENVELOPES..] else all
  }

  /** A mailbox may also be a single envelope; anything else counts as empty. */
  function FoundItems<E(==,!new)>(json: Json<E>, single: seq<byte> -> Option<E>, mailbox: Option<seq<byte>>): seq<E> {
    if mailbox.None? then []
    else if json.parse(mailbox.value).Some? then json.parse(mailbox.value).value
    else if single(mailbox.value).Some? then [single(mailbox.value).value]
    else []
  }

  /** `deposit_envelope_to_mailbox` between its `get` and its `put`. */
  method DepositEnvelope<E(==,!new)>(json: Json<E>, single: seq<byte> -> Option<E>, same: (E, E) -> bool,
                                     mailbox: Option<seq<byte>>, envelope: E)
    returns (payload: seq<byte>)
    ensures payload == json.render(Deposited(same, FoundItems(json, single, mailbox), envelope))
  {
    var envelopes := FoundItems(json, single, mailbox);
    if !exists i :: 0 <= i < |envelopes| && same(envelopes[i], envelope) {
      envelopes := envelopes + [envelope];
    }
    if |envelopes| > 30 {
      envelopes := envelopes[|envelopes| - 30..];
    }
    payload := json.render(envelopes);
  }

  /**
   An envelope not yet in the mailbox its sender found reaches every node that does not hold it
   and stores the deposit, if it leaves room for the brackets.
   */
  lemma DepositReaches<E(!new)>(json: Json<E>, same: (E, E) -> bool, found: seq<E>, envelope: E,
                                existing: Option<seq<byte>>)
    requires json.Lawful() && (forall e :: same(e, e)) && (forall e :: e in found ==> !same(e, envelope))
    requires envelope !in ItemsOf(json, existing) && json.size(envelope) <= MAX_MAILBOX_VALUE_BYTES - 2
    ensures var put := json.render(Deposited(same, found, envelope));
            envelope in ItemsOf(json, Some(Merged(json, existing, put).0))
  {
    hide Merged;
    var list := Deposited(same, found, envelope);
    var news := list[..|list| - 1];
    assert list == news + [envelope];
    assert forall e :: e in news ==> e in found;
    DepositOutcome(json, existing, news, envelope);
  }

  /** The items found in a mailbox stay in the payload, but for the oldest if there are more than 29. */
  lemma DepositExactly<E(!new)>(json: Json<E>, single: seq<byte> -> Option<E>, same: (E, E) -> bool,
                                mailbox: Option<seq<byte>>, envelope: E, found: seq<E>)
    requires json.Lawful()
    requires match mailbox
             case None => found == []
             case Some(v) =>
               if json.parse(v).Some? then found == json.parse(v).value
               else if single(v).Some? then found == [single(v).value] else found == []
    ensures var put := json.parse(json.render(Deposited(same, FoundItems(json, single, mailbox), envelope)));
            var all := if exists e :: e in found && same(e, envelope) then found else found + [envelope];
            put == Some(if |all| <= 30 then all else all[|all| - 30..])
  {
    if e: E :| e in found && same(e, envelope) {
      var i :| 0 <= i < |found| && found[i] == e;
    }
  }

  // ----- what a merge keeps -----

  /** Where an item first arrives. */
  ghost function Arrival<E(!new)>(news: seq<E>, x: E): (i: nat)
    ensures i <= |news| && (i < |news| <==> x in news)
    ensures i < |news| ==> news[i] == x
    ensures forall k :: 0 <= k < i ==> news[k] != x
  {
    First(news, y => y == x)
  }

  /** `r` extends `items` by those of `news` that are not oversize, each once, in order of arrival. */
  ghost predicate Extends<E(!new)>(size: E -> nat, items: seq<E>, news: seq<E>, r: seq<E>) {
    && items <= r
    && (forall i :: |items| <= i < |r| ==> r[i] !in items)
    && (forall x :: x in r <==> x in items || (x in news && size(x) <= 49152))
    && (forall i, j :: |items| <= i < j < |r| ==> Arrival(news, r[i]) < Arrival(news, r[j]))
  }

  lemma ArrivalLater<E(!new)>(news: seq<E>, x: E, last: E)
    ensures x in news ==> Arrival(news + [last], x) == Arrival(news, x) < |news|
    ensures x !in news ==> Arrival(news + [x], x) == |news|
  {
    hide Arrival;
    assert forall k :: 0 <= k < |news| ==> (news + [last])[k] == news[k] == (news + [x])[k];
    if x in news {
      assert (news + [last])[Arrival(news, x)] == x;
      assert Arrival(news + [last], x) <= Arrival(news, x);
    }
    assert (news + [x])[|news|] == x;
  }

  lemma {:induction false} CombineExtends<E(!new)>(size: E -> nat, items: seq<E>, news: seq<E>)
    ensures Extends(size, items, news, Combine(size, items, news))
  {
    hide Arrival;
    if news != [] {
      var init, last := news[..|news| - 1], news[|news| - 1];
      assert news == init + [last];
      CombineExtends(size, items, init);
      var before, r := Combine(size, items, init), Combine(size, items, news);
      forall i, j | |items| <= i < j < |r| ensures Arrival(news, r[i]) < Arrival(news, r[j]) {
        assert r[i] == before[i] && before[i] in before;
        ArrivalLater(init, r[i], last);
        ArrivalLater(init, r[j], last);
        if j < |before| {
          assert r[j] == before[j] && before[j] in before;
        }
      }
    }
  }

  /**
   What a merge of an array stores: what was there, extended by what arrives, without as many of
   the oldest items as it takes to fit into 50 items and 48 KiB of print, and not one more.
   */
  lemma MergeExactly<E(!new)>(json: Json<E>, existing: Option<seq<byte>>, incoming: seq<byte>)
    returns (all: seq<E>, dropped: nat)
    requires json.Lawful() && json.parse(incoming).Some?
    ensures Extends(json.size, ItemsOf(json, existing), json.parse(incoming).value, all) && dropped <= |all|
    ensures var (value, accepted) := Merged(json, existing, incoming);
            && json.parse(value) == Some(all[dropped..]) && |all[dropped..]| <= 50 && |value| <= 49152
            && (forall n :: 0 <= n < dropped ==> |all[n..]| > 50 || |json.render(all[n..])| > 49152)
            && (accepted <==> forall x :: x in json.parse(incoming).value ==> json.size(x) <= 49152)
  {
    hide Combine, SumSizes, Extends;
    var news := json.parse(incoming).value;
    all := Combine(json.size, ItemsOf(json, existing), news);
    CombineExtends(json.size, ItemsOf(json, existing), news);
    dropped := Excess(json.size, all);
    OversizeMeans(json.size, news);
  }

  lemma OversizeMeans<E(!new)>(size: E -> nat, s: seq<E>)
    ensures AnyOversize(size, s) <==> exists x :: x in s && size(x) > 49152
  {
    if x :| x in s && size(x) > 49152 {
      var i :| 0 <= i < |s| && s[i] == x;
    }
  }

  /** As long as everything fits, nothing is lost: the old items, then the new ones. */
  lemma MergeKeepsAll<E(!new)>(json: Json<E>, existing: Option<seq<byte>>, incoming: seq<byte>, items: seq<E>,
                               news: seq<E>)
    requires json.Lawful() && json.parse(incoming) == Some(news)
    requires items
          == if existing.Some? && json.parse(existing.value).Some? then json.parse(existing.value).value else []
    requires Distinct(items + news) && |items + news| <= 50 && |json.render(items + news)| <= 49152
    ensures Merged(json, existing, incoming) == (json.render(items + news), true)
  {
    hide SumSizes, Excess, Combine, Distinct;
    AllNew(items, news);
    forall i | 0 <= i < |news| ensures json.size(news[i]) <= 49152 {
      assert (items + news)[|items| + i] == news[i];
      BoundedItemsFit(json.size, items + news, |items| + i);
    }
    CombineAll(json.size, items, news);
    LongestBoundedSuffix(json.size, items + news, 0);
    assert (items + news)[0..] == items + news;
  }

  lemma AllNew<E(!new)>(items: seq<E>, news: seq<E>)
    requires Distinct(items + news)
    ensures Distinct(news) && forall i :: 0 <= i < |news| ==> news[i] !in items
  {
    var all := items + news;
    assert forall i :: 0 <= i < |news| ==> news[i] == all[|items| + i];
    assert forall i :: 0 <= i < |items| ==> items[i] == all[i];
  }

  lemma {:induction false} CombineAll<E(!new)>(size: E -> nat, items: seq<E>, news: seq<E>)
    requires Distinct(news)
    requires forall i :: 0 <= i < |news| ==> size(news[i]) <= MAX_MAILBOX_VALUE_BYTES && news[i] !in items
    ensures Combine(size, items, news) == items + news
  {
    if news == [] {
      assert items + news == items;
    } else {
      var init, last := news[..|news| - 1], news[|news| - 1];
      CombineAll(size, items, init);
      assert items + news == items + init + [last];
    }
  }

  // ----- merges that keep everything -----

  ghost predicate Distinct<E>(s: seq<E>) {
    forall i, j :: 0 <= i < j < |s| ==> s[i] != s[j]
  }

  lemma {:induction false} CombineDistinct<E(!new)>(size: E -> nat, items: seq<E>, incoming: seq<E>)
    requires Distinct(items)
    ensures Distinct(Combine(size, items, incoming))
    ensures |Combine(size, items, incoming)| <= |items| + |incoming|
  {
    if incoming != [] {
      CombineDistinct(size, items, incoming[..|incoming| - 1]);
    }
  }

  lemma {:induction false} CombineFresh<E(!new)>(size: E -> nat, incoming: seq<E>)
    requires Distinct(incoming) && !AnyOversize(size, incoming)
    ensures Combine(size, [], incoming) == incoming
  {
    if incoming != [] {
      var init, last := incoming[..|incoming| - 1], incoming[|incoming| - 1];
      assert incoming == init + [last];
      OversizeAppend(size, init, last);
      CombineFresh(size, init);
    }
  }

  lemma {:induction false} BoundedItemsFit<E(!new)>(size: E -> nat, s: seq<E>, i: nat)
    requires i < |s|
    ensures size(s[i]) <= SumSizes(size, s)
  {
    if i > 0 {
      BoundedItemsFit(size, s[1..], i - 1);
    }
  }

  /** Arrays that a merge into an empty mailbox leaves as they are. */
  ghost predicate Keepable<E(!new)>(size: E -> nat, items: seq<E>) {
    Distinct(items) && Bounded(size, items)
  }

  /** A merge into an empty mailbox keeps an array's items exactly if they are distinct and within bounds. */
  lemma MergeKeepsExactly<E(!new)>(json: Json<E>, value: seq<byte>)
    requires json.Lawful() && json.parse(value).Some?
    ensures var items := json.parse(value).value;
            json.parse(Merged(json, None, value).0) == Some(items) <==> Keepable(json.size, items)
    ensures Keepable(json.size, json.parse(value).value) ==>
              Merged(json, None, value) == (json.render(json.parse(value).value), true)
  {
    hide SumSizes;
    var items := json.parse(value).value;
    var all := Combine(json.size, [], items);
    CombineDistinct(json.size, [], items);
    assert all[0..] == all;
    if Keepable(json.size, items) {
      forall i | 0 <= i < |items| ensures json.size(items[i]) <= MAX_MAILBOX_VALUE_BYTES {
        BoundedItemsFit(json.size, items, i);
      }
      CombineFresh(json.size, items);
      assert items[0..] == items;
    }
  }

  lemma {:induction false} CombineSeen<E(!new)>(size: E -> nat, items: seq<E>, incoming: seq<E>)
    requires forall x :: x in incoming ==> x in items
    ensures Combine(size, items, incoming) == items
  {
    if incoming != [] {
      CombineSeen(size, items, incoming[..|incoming| - 1]);
    }
  }

  /** Storing the merged value again changes nothing: a repeated STORE is harmless. */
  lemma MergeIdempotent<E(!new)>(json: Json<E>, existing: Option<seq<byte>>, incoming: seq<byte>)
    requires json.Lawful() && json.parse(incoming).Some?
    ensures var value := Merged(json, existing, incoming).0;
            Merged(json, Some(value), value).0 == value
  {
    var all := Combine(json.size, ItemsOf(json, existing), json.parse(incoming).value);
    var kept := all[Excess(json.size, all)..];
    CombineSeen(json.size, kept, kept);
    assert kept[0..] == kept;
  }
}
