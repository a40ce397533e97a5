/**
 What the receive loop does to the routing table (nodex-kademlia/src/rpc.rs): every sender is
 entered by `update`; if its bucket is full the oldest contact is pinged by a task of its own,
 and the sender replaces it when that ping fails, whatever happened in between.
 */
module ReceiveLoops {
  import opened NodeIds
  import opened Contacts
  import opened RoutingTables

  /** The table, and the senders whose tasks wait for the outcome of a ping. */
  datatype State = State(rows: Rows, waiting: seq<Contact>)

  /** `permit`: whether one of the bounded number of tasks is free. */
  datatype Step =
    | Datagram(sender: Contact, permit: bool)
    | Learn(contact: Contact)
    | PingAnswered(i: nat)
    | PingFailed(i: nat)

  predicate StartsPing(local: Id, s: State, step: Step)
    requires |s.rows| == NUM_BUCKETS
  {
    step.Datagram? && step.permit && !Ignored(local, step.sender)
    && BucketUpdate(s.rows[BucketIndex(local, step.sender.id)], step.sender).1.Full?
  }

  function Next(local: Id, s: State, step: Step): (r: State)
    requires |s.rows| == NUM_BUCKETS
    ensures |r.rows| == NUM_BUCKETS
  {
    match step
    case Datagram(c, _) =>
      State(Apply(local, s.rows, Op.Update(c)), if StartsPing(local, s, step) then s.waiting + [c] else s.waiting)
    case Learn(c) => s.(rows := Apply(local, s.rows, Op.Update(c)))
    case PingAnswered(i) => if i < |s.waiting| then s.(waiting := Without(s.waiting, i)) else s
    case PingFailed(i) =>
      if i < |s.waiting| then State(Apply(local, s.rows, ReplaceOldest(s.waiting[i])), Without(s.waiting, i)) else s
  }

  function Run(local: Id, s: State, steps: seq<Step>): (r: State)
    requires |s.rows| == NUM_BUCKETS
    ensures |r.rows| == NUM_BUCKETS
    decreases |steps|
  {
    if steps == [] then s else Run(local, Next(local, s, steps[0]), steps[1..])
  }

  /** Nobody waits twice, and nobody who waits is in its - full - bucket. */
  ghost predicate NoRivals(local: Id, s: State)
    requires |s.rows| == NUM_BUCKETS
  {
    && DistinctIds(s.waiting)
    && (forall c :: c in s.waiting ==>
          && !Ignored(local, c)
          && |s.rows[BucketIndex(local, c.id)]| == K
          && !HasId(s.rows[BucketIndex(local, c.id)], c.id))
  }

  /** No ping is started for a sender that waits already. */
  ghost predicate OnePingEach(local: Id, s: State, steps: seq<Step>)
    requires |s.rows| == NUM_BUCKETS
    decreases |steps|
  {
    steps != [] ==>
      && (StartsPing(local, s, steps[0]) ==> !HasId(s.waiting, steps[0].sender.id))
      && OnePingEach(local, Next(local, s, steps[0]), steps[1..])
  }

  /**
   A datagram enters its sender; whoever finds its bucket full, and a task free, waits for the oldest
   contact, and takes its place if the ping fails, but not if it is answered.
   */
  lemma LoopExactly(local: Id, s: State, c: Contact, permit: bool, i: nat)
    requires TableOk(local, s.rows) && !Ignored(local, c)
    ensures var b, r := BucketIndex(local, c.id), Next(local, s, Datagram(c, permit));
            var bucket := s.rows[b];
            && r.rows == s.rows[b := BucketUpdate(bucket, c).0]
            && (r.waiting == if permit && |bucket| == 20 && (forall k :: k in bucket ==> k.id != c.id)
                             then s.waiting + [c] else s.waiting)
    ensures Next(local, s, Learn(c)).rows == Next(local, s, Datagram(c, permit)).rows
            && Next(local, s, Learn(c)).waiting == s.waiting
    ensures i < |s.waiting| ==>
              var w, late := s.waiting[i], Without(s.waiting, i);
              var b := BucketIndex(local, w.id);
              && Next(local, s, PingAnswered(i)) == State(s.rows, late)
              && Next(local, s, PingFailed(i)) == State(s.rows[b := BucketReplaceOldest(s.rows[b], w)], late)
  {
    hide BucketIndex, Ignored;
    var bucket := s.rows[BucketIndex(local, c.id)];
    assert BucketOk(local, BucketIndex(local, c.id), bucket);
    NotFound(bucket, c.id);
  }

  /** A step breaks the table exactly if it replaces by a sender that is already among those who stay. */
  lemma NextKeepsTable(local: Id, s: State, step: Step)
    requires TableOk(local, s.rows) && forall c :: c in s.waiting ==> !Ignored(local, c)
    ensures TableOk(local, Next(local, s, step).rows) <==>
              (step.PingFailed? && step.i < |s.waiting| ==>
                 var c := s.waiting[step.i];
                 var bucket := s.rows[BucketIndex(local, c.id)];
                 bucket == [] || !HasId(bucket[1..], c.id))
  {
    hide TableOk, BucketIndex, Apply, BucketUpdate;
    match step
    case Datagram(c, _) => ApplyKeepsTable(local, s.rows, Op.Update(c));
    case Learn(c) => ApplyKeepsTable(local, s.rows, Op.Update(c));
    case PingAnswered(_) =>
    case PingFailed(i) =>
      if i < |s.waiting| {
        assert s.waiting[i] in s.waiting;
        ApplyKeepsTable(local, s.rows, ReplaceOldest(s.waiting[i]));
      }
  }

  lemma FullStaysFull(cs: seq<Contact>, c: Contact, id: Id)
    requires |cs| == K && !HasId(cs, id)
    ensures |BucketUpdate(cs, c).0| == K && !HasId(BucketUpdate(cs, c).0, id)
    ensures c.id != id ==> |BucketReplaceOldest(cs, c)| == K && !HasId(BucketReplaceOldest(cs, c), id)
  {
    NotFound(cs, c.id);
  }

  lemma PingMeansFull(local: Id, s: State, step: Step)
    requires TableOk(local, s.rows) && StartsPing(local, s, step)
    ensures step.Datagram? && !Ignored(local, step.sender)
    ensures var i := BucketIndex(local, step.sender.id);
            |s.rows[i]| == K && !HasId(s.rows[i], step.sender.id) && Next(local, s, step).rows == s.rows
  {
    hide BucketIndex, BucketUpdate;
    var i, c := BucketIndex(local, step.sender.id), step.sender;
    assert BucketOk(local, i, s.rows[i]);
    FullBucket(s.rows[i], c, BucketUpdate(s.rows[i], c).1.oldest);
    NotFound(s.rows[i], c.id);
  }

  lemma WithoutOne(cs: seq<Contact>, i: nat)
    requires i < |cs| && DistinctIds(cs)
    ensures DistinctIds(Without(cs, i)) && forall c :: c in Without(cs, i) ==> c in cs && c.id != cs[i].id
  {
    WithoutKeeps(cs, i);
  }

  lemma NextKeepsNoRivals(local: Id, s: State, step: Step)
    requires |s.rows| == NUM_BUCKETS
    requires TableOk(local, s.rows) && NoRivals(local, s)
    requires StartsPing(local, s, step) ==> !HasId(s.waiting, step.sender.id)
    ensures TableOk(local, Next(local, s, step).rows) && NoRivals(local, Next(local, s, step))
  {
    hide TableOk, BucketIndex, BucketUpdate, Ignored, StartsPing, BucketReplaceOldest;
    var r := Next(local, s, step);
    NextKeepsTable(local, s, step);
    match step
    case Datagram(c, _) =>
      UpdateKeepsWaiting(local, s, c);
      if StartsPing(local, s, step) {
        PingMeansFull(local, s, step);
        OneMoreWaiting(local, s, c);
      }
    case Learn(c) => UpdateKeepsWaiting(local, s, c);
    case PingAnswered(i) =>
      if i < |s.waiting| {
        WithoutOne(s.waiting, i);
      }
    case PingFailed(i) =>
      if i < |s.waiting| {
        WithoutOne(s.waiting, i);
        var c := s.waiting[i];
        assert c in s.waiting;
        forall w | w in r.waiting
          ensures |r.rows[BucketIndex(local, w.id)]| == K && !HasId(r.rows[BucketIndex(local, w.id)], w.id)
        {
          FullStaysFull(s.rows[BucketIndex(local, w.id)], c, w.id);
        }
      }
  }

  lemma OneMoreWaiting(local: Id, s: State, c: Contact)
    requires |s.rows| == NUM_BUCKETS
    requires NoRivals(local, s) && !HasId(s.waiting, c.id) && !Ignored(local, c)
    requires var b := s.rows[BucketIndex(local, c.id)]; |b| == K && !HasId(b, c.id)
    ensures NoRivals(local, s.(waiting := s.waiting + [c]))
  {
    hide BucketIndex, Ignored;
    forall k | 0 <= k < |s.waiting| ensures s.waiting[k].id != c.id {
      assert s.waiting[k] in s.waiting;
    }
  }

  lemma UpdateKeepsWaiting(local: Id, s: State, c: Contact)
    requires |s.rows| == NUM_BUCKETS && NoRivals(local, s)
    ensures NoRivals(local, s.(rows := Apply(local, s.rows, Op.Update(c))))
  {
    hide BucketIndex, BucketUpdate, Ignored;
    forall w | w in s.waiting ensures
        var b := Apply(local, s.rows, Op.Update(c))[BucketIndex(local, w.id)]; |b| == K && !HasId(b, w.id)
    {
      FullStaysFull(s.rows[BucketIndex(local, w.id)], c, w.id);
    }
  }

  /**
   Over every run of the loop in which no sender is waited for twice, the table keeps its
   invariant, however pings, datagrams and lookups interleave.
   */
  lemma {:induction false} RunKeepsTable(local: Id, s: State, steps: seq<Step>)
    requires |s.rows| == NUM_BUCKETS
    requires TableOk(local, s.rows) && NoRivals(local, s) && OnePingEach(local, s, steps)
    ensures TableOk(local, Run(local, s, steps).rows) && NoRivals(local, Run(local, s, steps))
    decreases |steps|
  {
    hide TableOk, NoRivals, Next, StartsPing;
    if steps != [] {
      NextKeepsNoRivals(local, s, steps[0]);
      RunKeepsTable(local, Next(local, s, steps[0]), steps[1..]);
    }
  }

  /** Less will not do: a second ping for a sender who waits can end with it stored twice. */
  lemma SecondPingCanDuplicate(local: Id, s: State, step: Step, i: nat)
    requires |s.rows| == NUM_BUCKETS
    requires TableOk(local, s.rows) && NoRivals(local, s) && StartsPing(local, s, step)
    requires i < |s.waiting| && s.waiting[i].id == step.sender.id
    ensures !TableOk(local, Run(local, s, [step, PingFailed(i), PingFailed(|s.waiting| - 1)]).rows)
  {
    hide TableOk, BucketIndex, StartsPing, Ignored;
    var first, last := PingFailed(i), PingFailed(|s.waiting| - 1);
    var s1 := Next(local, s, step);
    var s2 := Next(local, s1, first);
    PingMeansFull(local, s, step);
    var b, w := BucketIndex(local, step.sender.id), s.waiting[i];
    assert s1.waiting[i] == w && s2.waiting == Without(s.waiting + [step.sender], i);
    assert w in s.waiting && s2.rows[b] == s.rows[b][1..] + [w];
    assert s2.rows[b][1..][K - 2] == w;
    assert s2.waiting[|s.waiting| - 1] == step.sender;
    WaitingNotIgnored(local, s, step, i);
    NextKeepsTable(local, s1, first);
    NextKeepsTable(local, s2, last);
    ThreeSteps(local, s, step, first, last);
  }

  lemma WaitingNotIgnored(local: Id, s: State, step: Step, i: nat)
    requires |s.rows| == NUM_BUCKETS && NoRivals(local, s) && StartsPing(local, s, step) && i < |s.waiting|
    ensures forall c :: c in s.waiting + [step.sender] ==> !Ignored(local, c)
    ensures forall c :: c in Without(s.waiting + [step.sender], i) ==> !Ignored(local, c)
  {
    hide Ignored, BucketIndex;
  }

  lemma ThreeSteps(local: Id, s: State, a: Step, b: Step, c: Step)
    requires |s.rows| == NUM_BUCKETS
    ensures Run(local, s, [a, b, c]) == Next(local, Next(local, Next(local, s, a), b), c)
  {
    hide Next;
    assert [a, b, c][1..] == [b, c] && [b, c][1..] == [c];
    var t := Next(local, Next(local, s, a), b);
    assert Run(local, t, [c]) == Next(local, t, c);
  }
}
