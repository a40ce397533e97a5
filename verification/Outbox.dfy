/**
 The outbox (nodex-messenger/src/message_queue.rs) and its worker
 (nodex-messenger/src/messenger.rs): at most six attempts per queued message, with backoff.
 */
module Outbox {
  import opened Bytes
  import opened Sequences

  const MAX_RETRY_ATTEMPTS: nat := 6
  const MAX_QUEUED_MESSAGES: nat := 100

  /** The two of the message states that occur in the queue. */
  datatype Status = Sending | Failed

  datatype Queued = Queued(id: string, recipient: string, text: string, attempts: nat, status: Status, nextRetryAt: nat)

  function Backoff(attempts: nat): nat {
    Min(Pow2(Min(attempts, 5)), 32)
  }

  lemma BackoffValues()
    ensures Backoff(1) == 2 && Backoff(2) == 4 && Backoff(3) == 8 && Backoff(4) == 16 && Backoff(5) == 32
    ensures forall n :: n >= 1 ==> Backoff(n) >= 2
  {
  }

  predicate IsDue(m: Queued, now: nat) {
    m.status == Sending && m.nextRetryAt <= now
  }

  // ----- the queue as a value -----

  type Queue = seq<Queued>

  predicate Contains(q: Queue, id: string) {
    exists i :: 0 <= i < |q| && q[i].id == id
  }

  function Push(q: Queue, id: string, recipient: string, text: string, at: nat): Queue {
    if Contains(q, id) || |q| >= MAX_QUEUED_MESSAGES then q
    else q + [Queued(id, recipient, text, 0, Sending, at)]
  }

  /** Position of the first due message, or the length. */
  function FirstDue(q: Queue, now: nat): (i: nat)
    ensures i <= |q|
    ensures i < |q| ==> IsDue(q[i], now)
    ensures forall k :: 0 <= k < i ==> !IsDue(q[k], now)
  {
    First(q, (m: Queued) => IsDue(m, now))
  }

  function Pop(q: Queue, now: nat): (Queue, Option<Queued>) {
    var i := FirstDue(q, now);
    if i < |q| then (q[..i] + q[i + 1..], Some(q[i].(attempts := q[i].attempts + 1))) else (q, None)
  }

  function Rescheduled(m: Queued, now: nat): Queued {
    if m.attempts >= MAX_RETRY_ATTEMPTS then m.(status := Failed)
    else m.(nextRetryAt := now + Backoff(m.attempts), status := Sending)
  }

  function PositionOf(q: Queue, id: string): (i: nat)
    ensures i <= |q|
    ensures i < |q| ==> q[i].id == id
    ensures forall k :: 0 <= k < i ==> q[k].id != id
  {
    First(q, (m: Queued) => m.id == id)
  }

  function Delivered(q: Queue, id: string): Queue {
    var i := PositionOf(q, id);
    if i < |q| then q[..i] + q[i + 1..] else q
  }

  /** The messages due now, in order, each with its attempt counted. */
  function Due(q: Queue, now: nat): (r: Queue)
    ensures |r| <= |q|
  {
    if q == [] then []
    else (if IsDue(q[0], now) then [q[0].(attempts := q[0].attempts + 1)] else []) + Due(q[1..], now)
  }

  /** The others, in order. */
  function NotDue(q: Queue, now: nat): Queue {
    if q == [] then [] else (if IsDue(q[0], now) then [] else [q[0]]) + NotDue(q[1..], now)
  }

  function AllRescheduled(q: Queue, now: nat): (r: Queue)
    ensures |r| == |q|
  {
    if q == [] then [] else AllRescheduled(q[..|q| - 1], now) + [Rescheduled(q[|q| - 1], now)]
  }

  /** Taken out is the first message that is being sent and whose time has come; the others stay in order. */
  lemma PopExactly(q: Queue, now: nat)
    ensures match Pop(q, now).1
            case None => Pop(q, now).0 == q && forall m :: m in q ==> m.status == Failed || now < m.nextRetryAt
            case Some(taken) =>
              exists i :: 0 <= i < |q|
                && q[i].status == Sending && q[i].nextRetryAt <= now
                && (forall k :: 0 <= k < i ==> q[k].status == Failed || now < q[k].nextRetryAt)
                && taken == q[i].(attempts := q[i].attempts + 1) && Pop(q, now).0 == q[..i] + q[i + 1..]
  {
    hide FirstDue;
    var i := FirstDue(q, now);
    if i < |q| {
      assert IsDue(q[i], now);
    }
  }

  /** After the n-th attempt in vain it is tried again 2, 4, 8, 16, 32 seconds later, after the sixth never. */
  lemma RescheduledExactly(m: Queued, now: nat)
    requires 1 <= m.attempts
    ensures var wait := [2, 4, 8, 16, 32];
            var r := Rescheduled(m, now);
            && (m.attempts <= 5 ==> r == m.(status := Sending, nextRetryAt := now + wait[m.attempts - 1]))
            && (m.attempts >= 6 ==> r == m.(status := Failed))
  {
    hide Backoff;
    BackoffValues();
  }

  class MessageQueue {
    var queue: Queue

    constructor ()
      ensures queue == []
    {
      queue := [];
    }

    method PushAfter(id: string, recipient: string, text: string, delaySecs: nat, now: nat)
      modifies this
      ensures queue == Push(old(queue), id, recipient, text, now + delaySecs)
    {
      if Contains(queue, id) {
        return;
      }
      if |queue| >= MAX_QUEUED_MESSAGES {
        return;
      }
      queue := queue + [Queued(id, recipient, text, 0, Sending, now + delaySecs)];
    }

    method PopPending(now: nat) returns (r: Option<Queued>)
      modifies this
      ensures (queue, r) == Pop(old(queue), now)
    {
      var pos := FirstDue(queue, now);
      if pos < |queue| {
        var item := queue[pos];
        queue := queue[..pos] + queue[pos + 1..];
        item := item.(attempts := item.attempts + 1);
        return Some(item);
      }
      return None;
    }

    method ScheduleRetry(queued: Queued, now: nat)
      modifies this
      ensures queue == old(queue) + [Rescheduled(queued, now)]
    {
      var item := queued;
      if item.attempts >= MAX_RETRY_ATTEMPTS {
        item := item.(status := Failed);
      } else {
        var backoff := Min(Pow2(Min(item.attempts, 5)), 32);
        item := item.(nextRetryAt := now + backoff, status := Sending);
      }
      queue := queue + [item];
    }

    method MarkDelivered(id: string)
      modifies this
      ensures queue == Delivered(old(queue), id)
    {
      var pos := PositionOf(queue, id);
      if pos < |queue| {
        queue := queue[..pos] + queue[pos + 1..];
      }
    }

    /**
     One tick of the worker: it hands over exactly the messages that are due, in order, each
     once, and stops because a rescheduled message is never due again at the same time.
     */
    method Drain(now: nat) returns (handedOver: seq<Queued>)
      modifies this
      ensures handedOver == Due(old(queue), now)
      ensures queue == NotDue(old(queue), now) + AllRescheduled(handedOver, now)
      ensures forall m :: m in queue ==> !IsDue(m, now)
    {
      hide IsDue, Rescheduled, Due, NotDue, FirstDue;
      handedOver := [];
      ghost var rest := queue;
      while true
        invariant queue == rest + AllRescheduled(handedOver, now)
        invariant handedOver + Due(rest, now) == Due(old(queue), now)
        invariant NotDue(rest, now) == NotDue(old(queue), now)
        decreases |rest|
      {
        FirstOfAll(rest, handedOver, now);
        FirstIsDue(rest, now);
        var item := PopPending(now);
        if item.None? {
          break;
        }
        ghost var i := FirstDue(rest, now);
        rest := rest[..i] + rest[i + 1..];
        assert (handedOver + [item.value])[..|handedOver|] == handedOver;
        handedOver := handedOver + [item.value];
        ScheduleRetry(item.value, now);
      }
      RescheduledAreNotDue(handedOver, now);
      NotDueMembers(old(queue), now);
    }
  }

  /** A rescheduled message has failed or waits at least two seconds. */
  lemma {:induction false} RescheduledAreNotDue(q: Queue, now: nat)
    ensures forall m :: m in AllRescheduled(q, now) ==> !IsDue(m, now)
  {
    hide Backoff;
    if q != [] {
      RescheduledAreNotDue(q[..|q| - 1], now);
      BackoffPositive(q[|q| - 1].attempts);
    }
  }

  lemma {:induction false} NotDueMembers(q: Queue, now: nat)
    ensures forall m :: m in NotDue(q, now) ==> !IsDue(m, now)
  {
    hide IsDue;
    if q != [] {
      NotDueMembers(q[1..], now);
    }
  }

  lemma BackoffPositive(n: nat)
    ensures Backoff(n) >= 1
  {
  }

  /** What is popped comes from the part not yet handled. */
  lemma FirstOfAll(rest: Queue, handled: Queue, now: nat)
    ensures var i, q := FirstDue(rest, now), rest + AllRescheduled(handled, now);
            && FirstDue(q, now) == (if i < |rest| then i else |q|)
            && (i < |rest| ==> q[..i] + q[i + 1..] == rest[..i] + rest[i + 1..] + AllRescheduled(handled, now))
  {
    hide IsDue, FirstDue, AllRescheduled;
    RescheduledAreNotDue(handled, now);
    var tail := AllRescheduled(handled, now);
    forall k | |rest| <= k < |rest + tail| ensures !IsDue((rest + tail)[k], now) {
      assert (rest + tail)[k] == tail[k - |rest|];
    }
    assert forall k :: 0 <= k < |rest| ==> (rest + tail)[k] == rest[k];
  }

  lemma {:induction false} DueAppend(a: Queue, b: Queue, now: nat)
    ensures Due(a + b, now) == Due(a, now) + Due(b, now)
    ensures NotDue(a + b, now) == NotDue(a, now) + NotDue(b, now)
  {
    hide *;
    if a == [] {
      NoneDue(now);
      NothingBefore(b);
      NothingBefore(Due(b, now));
      NothingBefore(NotDue(b, now));
    } else {
      var m, rest := a[0], a[1..];
      DueAppend(rest, b, now);
      TailOfBoth(a, b);
      DueFirst(a, now);
      DueFirst(a + b, now);
      Regrouped([m.(attempts := m.attempts + 1)], Due(rest, now), Due(b, now));
      Regrouped([m], NotDue(rest, now), NotDue(b, now));
    }
  }

  lemma NoneDue(now: nat)
    ensures Due([], now) == [] && NotDue([], now) == []
  {
  }

  lemma DueFirst(q: Queue, now: nat)
    requires q != []
    ensures Due(q, now)
         == if IsDue(q[0], now) then [q[0].(attempts := q[0].attempts + 1)] + Due(q[1..], now) else Due(q[1..], now)
    ensures NotDue(q, now) == if IsDue(q[0], now) then NotDue(q[1..], now) else [q[0]] + NotDue(q[1..], now)
  {
    hide IsDue;
  }

  lemma {:induction false} NothingDue(q: Queue, now: nat)
    requires forall m :: m in q ==> !IsDue(m, now)
    ensures Due(q, now) == [] && NotDue(q, now) == q
  {
    hide IsDue;
    if q != [] {
      NothingDue(q[1..], now);
    }
  }

  lemma OnlyDue(m: Queued, now: nat)
    requires IsDue(m, now)
    ensures Due([m], now) == [m.(attempts := m.attempts + 1)] && NotDue([m], now) == []
  {
  }

  /** The first due message heads the list of those due; without one nothing is due. */
  lemma FirstIsDue(q: Queue, now: nat)
    ensures var i := FirstDue(q, now);
            if i == |q| then Due(q, now) == [] && NotDue(q, now) == q
            else
              var without := q[..i] + q[i + 1..];
              && Due(q, now) == [q[i].(attempts := q[i].attempts + 1)] + Due(without, now)
              && NotDue(q, now) == NotDue(without, now)
  {
    hide IsDue, FirstDue, Due, NotDue;
    var i := FirstDue(q, now);
    if i == |q| {
      NothingDue(q, now);
    } else {
      NothingDue(q[..i], now);
      OnlyDue(q[i], now);
      assert q == q[..i] + ([q[i]] + q[i + 1..]);
      DueAppend(q[..i], [q[i]] + q[i + 1..], now);
      DueAppend([q[i]], q[i + 1..], now);
      DueAppend(q[..i], q[i + 1..], now);
    }
  }

  // ----- runs with one worker -----

  /** A queued message together with the push it came from. */
  datatype Ticket = Ticket(item: Queued, serial: nat)

  /** The worker holds at most one message, taken at the time it will use for the retry. */
  datatype Outboxes = Outboxes(
    queue: seq<Ticket>,
    inFlight: Option<(Ticket, nat)>,
    nextSerial: nat,
    handed: map<nat, seq<nat>>)

  datatype Step =
    | PushStep(id: string, recipient: string, text: string, at: nat)
    | PopStep(now: nat)
    | RetryStep
    | DeliveredStep(id: string)

  function Items(ts: seq<Ticket>): (q: Queue)
    ensures |q| == |ts| && forall i :: 0 <= i < |ts| ==> q[i] == ts[i].item
  {
    seq(|ts|, i requires 0 <= i < |ts| => ts[i].item)
  }

  /** One worker: it takes the next message only after rescheduling the previous one. */
  function Next(s: Outboxes, step: Step): Outboxes {
    match step
    case PushStep(id, recipient, text, at) =>
      if Contains(Items(s.queue), id) || |s.queue| >= MAX_QUEUED_MESSAGES then s
      else
        s.(queue := s.queue + [Ticket(Queued(id, recipient, text, 0, Sending, at), s.nextSerial)],
           nextSerial := s.nextSerial + 1,
           handed := s.handed[s.nextSerial := []])
    case PopStep(now) =>
      var i := FirstDue(Items(s.queue), now);
      if s.inFlight.Some? || i == |s.queue| then s
      else
        var t := s.queue[i];
        s.(queue := s.queue[..i] + s.queue[i + 1..],
           inFlight := Some((t.(item := t.item.(attempts := t.item.attempts + 1)), now)),
           handed := if t.serial in s.handed then s.handed[t.serial := s.handed[t.serial] + [now]] else s.handed)
    case RetryStep =>
      if s.inFlight.None? then s
      else
        var (t, now) := s.inFlight.value;
        s.(queue := s.queue + [t.(item := Rescheduled(t.item, now))], inFlight := None)
    case DeliveredStep(id) =>
      var i := PositionOf(Items(s.queue), id);
      if i == |s.queue| then s else s.(queue := s.queue[..i] + s.queue[i + 1..])
  }

  /** Each step changes the queue as the corresponding queue operation does. */
  lemma StepsAreQueueOperations(s: Outboxes, step: Step)
    ensures var q := Items(s.queue);
            Items(Next(s, step).queue) ==
              match step
              case PushStep(id, recipient, text, at) => Push(q, id, recipient, text, at)
              case PopStep(now) => if s.inFlight.Some? then q else Pop(q, now).0
              case RetryStep =>
                if s.inFlight.None? then q else q + [Rescheduled(s.inFlight.value.0.item, s.inFlight.value.1)]
              case DeliveredStep(id) => Delivered(q, id)
  {
    hide Rescheduled, FirstDue, PositionOf, Items, Contains;
    var q := Items(s.queue);
    match step
    case PushStep(id, recipient, text, at) =>
      ItemsWith(s.queue, Ticket(Queued(id, recipient, text, 0, Sending, at), s.nextSerial));
    case PopStep(now) =>
      var i := FirstDue(q, now);
      if i < |q| {
        ItemsWithout(s.queue, i);
      }
    case RetryStep =>
      if s.inFlight.Some? {
        var (t, now) := s.inFlight.value;
        ItemsWith(s.queue, t.(item := Rescheduled(t.item, now)));
      }
    case DeliveredStep(id) =>
      var i := PositionOf(q, id);
      if i < |q| {
        ItemsWithout(s.queue, i);
      }
  }

  lemma ItemsWith(ts: seq<Ticket>, t: Ticket)
    ensures Items(ts + [t]) == Items(ts) + [t.item]
  {
  }

  lemma ItemsWithout(ts: seq<Ticket>, i: nat)
    requires i < |ts|
    ensures Items(ts[..i] + ts[i + 1..]) == Items(ts)[..i] + Items(ts)[i + 1..]
  {
  }

  /** The handovers of one push: at most six, each no sooner than the backoff of its number. */
  ghost predicate Spaced(times: seq<nat>) {
    |times| <= MAX_RETRY_ATTEMPTS
    && forall i :: 1 <= i < |times| ==> times[i] >= times[i - 1] + Backoff(i)
  }

  /** A waiting ticket has been handed over as often as it counts, and waits out its backoff. */
  ghost predicate WaitingOk(t: Ticket, handed: map<nat, seq<nat>>) {
    && t.serial in handed && t.item.attempts == |handed[t.serial]|
    && (t.item.status == Sending ==>
          && t.item.attempts < MAX_RETRY_ATTEMPTS
          && (t.item.attempts > 0 ==>
                t.item.nextRetryAt == handed[t.serial][t.item.attempts - 1] + Backoff(t.item.attempts)))
  }

  ghost predicate InFlightOk(f: (Ticket, nat), handed: map<nat, seq<nat>>) {
    && f.0.serial in handed && f.0.item.attempts == |handed[f.0.serial]| > 0
    && handed[f.0.serial][f.0.item.attempts - 1] == f.1
  }

  ghost predicate OutboxOk(s: Outboxes) {
    && (forall n :: n in s.handed ==> n < s.nextSerial && Spaced(s.handed[n]))
    && (forall t :: t in s.queue ==> WaitingOk(t, s.handed))
    && (s.inFlight.Some? ==> InFlightOk(s.inFlight.value, s.handed))
    && (forall i, j :: 0 <= i < j < |s.queue| ==> s.queue[i].serial != s.queue[j].serial)
    && (s.inFlight.Some? ==> forall t :: t in s.queue ==> t.serial != s.inFlight.value.0.serial)
    && |s.queue| + (if s.inFlight.Some? then 1 else 0) <= MAX_QUEUED_MESSAGES + 1
  }

  lemma WithoutTicket(q: seq<Ticket>, i: nat)
    requires i < |q| && forall a, b :: 0 <= a < b < |q| ==> q[a].serial != q[b].serial
    ensures var r := q[..i] + q[i + 1..];
            && (forall t :: t in r ==> t in q && t.serial != q[i].serial)
            && (forall a, b :: 0 <= a < b < |r| ==> r[a].serial != r[b].serial)
  {
  }

  lemma PushKeeps(s: Outboxes, id: string, recipient: string, text: string, at: nat)
    requires OutboxOk(s)
    ensures OutboxOk(Next(s, PushStep(id, recipient, text, at)))
  {
    hide Contains, Spaced;
    assert Spaced([]) by {
      NoTimes();
    }
    forall t | t in s.queue ensures t.serial in s.handed {
      assert WaitingOk(t, s.handed);
    }
  }

  lemma NoTimes()
    ensures Spaced([])
  {
  }

  /** A due ticket is handed over in time, and nobody else's handovers change. */
  lemma HandedOver(t: Ticket, handed: map<nat, seq<nat>>, now: nat)
    requires WaitingOk(t, handed) && IsDue(t.item, now) && Spaced(handed[t.serial])
    ensures var times := handed[t.serial] + [now];
            && Spaced(times)
            && InFlightOk((t.(item := t.item.(attempts := t.item.attempts + 1)), now), handed[t.serial := times])
  {
    hide Backoff;
  }

  lemma OthersWait(u: Ticket, handed: map<nat, seq<nat>>, serial: nat, times: seq<nat>)
    requires WaitingOk(u, handed) && u.serial != serial
    ensures WaitingOk(u, handed[serial := times])
  {
    hide Backoff;
  }

  lemma PopKeeps(s: Outboxes, now: nat)
    requires OutboxOk(s)
    ensures OutboxOk(Next(s, PopStep(now)))
  {
    hide Spaced, WaitingOk, InFlightOk, IsDue;
    var i := FirstDue(Items(s.queue), now);
    if s.inFlight.None? && i < |s.queue| {
      var t := s.queue[i];
      assert t in s.queue && Items(s.queue)[i] == t.item;
      WaitingHasTimes(t, s.handed);
      WithoutTicket(s.queue, i);
      HandedOver(t, s.handed, now);
      var left, handed := s.queue[..i] + s.queue[i + 1..], s.handed[t.serial := s.handed[t.serial] + [now]];
      forall u | u in left ensures WaitingOk(u, handed) {
        OthersWait(u, s.handed, t.serial, s.handed[t.serial] + [now]);
      }
    }
  }

  lemma WaitingHasTimes(t: Ticket, handed: map<nat, seq<nat>>)
    requires WaitingOk(t, handed)
    ensures t.serial in handed
  {
  }

  lemma RetryKeeps(s: Outboxes)
    requires OutboxOk(s)
    ensures OutboxOk(Next(s, RetryStep))
  {
    hide Backoff, Spaced;
  }

  lemma DeliveredKeeps(s: Outboxes, id: string)
    requires OutboxOk(s)
    ensures OutboxOk(Next(s, DeliveredStep(id)))
  {
    hide Backoff, Spaced;
    var i := PositionOf(Items(s.queue), id);
    if i < |s.queue| {
      WithoutTicket(s.queue, i);
    }
  }

  function RunSteps(s: Outboxes, steps: seq<Step>): Outboxes
    decreases |steps|
  {
    if steps == [] then s else RunSteps(Next(s, steps[0]), steps[1..])
  }

  const EMPTY: Outboxes := Outboxes([], None, 0, map[])

  /**
   Over every run of pushes, worker steps and receipts: each push is handed to the transport at
   most six times, the n-th retry comes at least 2, 4, 8, 16, 32 seconds after the handover
   before it, and the queue together with the message in flight never exceeds 101.
   */
  lemma {:induction false} RunKeepsOutbox(s: Outboxes, steps: seq<Step>)
    requires OutboxOk(s)
    ensures OutboxOk(RunSteps(s, steps))
    decreases |steps|
  {
    hide OutboxOk, Next;
    if steps != [] {
      match steps[0] {
        case PushStep(id, recipient, text, at) => PushKeeps(s, id, recipient, text, at);
        case PopStep(now) => PopKeeps(s, now);
        case RetryStep => RetryKeeps(s);
        case DeliveredStep(id) => DeliveredKeeps(s, id);
      }
      RunKeepsOutbox(Next(s, steps[0]), steps[1..]);
    }
  }

  /** The first five retries and the cap on the number of handovers, for every push of every run. */
  lemma HandoversOfAnyRun(steps: seq<Step>, serial: nat, n: nat)
    requires var handed := RunSteps(EMPTY, steps).handed;
             serial in handed && n < |handed[serial]|
    ensures var times := RunSteps(EMPTY, steps).handed[serial];
            && n < 6
            && (n == 1 ==> times[1] >= times[0] + 2) && (n == 2 ==> times[2] >= times[1] + 4)
            && (n == 3 ==> times[3] >= times[2] + 8) && (n == 4 ==> times[4] >= times[3] + 16)
            && (n == 5 ==> times[5] >= times[4] + 32)
  {
    hide Backoff, RunSteps;
    RunKeepsOutbox(EMPTY, steps);
    BackoffValues();
    assert Spaced(RunSteps(EMPTY, steps).handed[serial]);
  }

  /** After every run the queue and the message in flight are together at most 101. */
  lemma QueueBounded(steps: seq<Step>)
    ensures var s := RunSteps(EMPTY, steps);
            |s.queue| + (if s.inFlight.Some? then 1 else 0) <= 101
  {
    hide RunSteps;
    RunKeepsOutbox(EMPTY, steps);
  }
}
