/**
 What the chunk assembler guarantees over every run of arriving chunks, from any number of
 senders and in any interleaving (nodex-kademlia/src/chunking.rs).
 */
module Reassembly {
  import opened Bytes
  import opened Contacts
  import opened Chunking
  import opened Sets

  // ----- runs -----

  function After(p: Pending, timeout: nat, crc: Checksum, es: seq<Event>): Pending {
    if es == [] then p else Step(After(p, timeout, crc, es[..|es| - 1]), timeout, crc, es[|es| - 1]).0
  }

  /** What the last event of a run makes the assembler put out. */
  function Output(p: Pending, timeout: nat, crc: Checksum, es: seq<Event>): Option<seq<byte>>
    requires es != []
  {
    Step(After(p, timeout, crc, es[..|es| - 1]), timeout, crc, es[|es| - 1]).1
  }

  // ----- expiry -----

  /** The assemblies begun less than the timeout ago. */
  ghost function Begun(p: Pending, timeout: nat, now: nat): set<Key> {
    set k | k in p && timeout > 0 && now < p[k].firstReceived + timeout
  }

  lemma CleanedIsBegun(p: Pending, timeout: nat, now: nat)
    ensures Cleaned(p, timeout, now).Keys == Begun(p, timeout, now)
    ensures forall k :: k in Cleaned(p, timeout, now) ==> Cleaned(p, timeout, now)[k] == p[k]
  {
  }

  /**
   An arrival at `now` finds only assemblies begun less than the timeout ago. Those of other keys
   stay as they are; its own stays, with its age, unless it comes out complete, and may be new.
   */
  lemma ExpiresExactly(p: Pending, timeout: nat, crc: Checksum, e: Event)
    ensures var (q, out) := Step(p, timeout, crc, e);
            && (forall k :: k in q ==> q[k].firstReceived == e.now || e.now < q[k].firstReceived + timeout)
            && (forall k :: k != KeyOf(e) ==>
                  (k in q <==> k in Begun(p, timeout, e.now)) && (k in q ==> q[k] == p[k]))
            && (KeyOf(e) in Begun(p, timeout, e.now) && out.None? ==>
                  KeyOf(e) in q && q[KeyOf(e)].firstReceived == p[KeyOf(e)].firstReceived)
  {
    hide Assemble, HasRoom, Acceptable, Cleaned;
    CleanedIsBegun(p, timeout, e.now);
  }

  /** Fewer than 256 assemblies were begun within the timeout, fewer than 16 from the address, and not this one. */
  ghost predicate Admitted(p: Pending, timeout: nat, now: nat, k: Key) {
    && k !in Begun(p, timeout, now) && |Begun(p, timeout, now)| < 256
    && |set b | b in Begun(p, timeout, now) && b.0.ip == k.0.ip| < 16
  }

  /** That many may be pending besides: whatever is older makes room. */
  lemma AdmittedHasRoom(p: Pending, timeout: nat, now: nat, k: Key)
    requires Admitted(p, timeout, now, k)
    ensures k !in Cleaned(p, timeout, now) && HasRoom(Cleaned(p, timeout, now), k.0)
  {
    hide Cleaned;
    CleanedIsBegun(p, timeout, now);
    var clean := Cleaned(p, timeout, now);
    assert |clean| == |clean.Keys|;
    assert FromIp(clean, k.0.ip) == set b | b in Begun(p, timeout, now) && b.0.ip == k.0.ip;
  }

  /**
   Only chunks of sensible geometry and with the right checksum count; a message of one chunk comes
   out at once. Neither touches what is pending, beyond expiry.
   */
  lemma PassingExactly(p: Pending, timeout: nat, crc: Checksum, e: Event)
    ensures var c := e.chunk;
            var bad := c.chunkCount == 0 || c.chunkCount > 256 || c.chunkIndex >= c.chunkCount
                       || crc(c.raw) != c.checksum;
            && (bad ==> Step(p, timeout, crc, e) == (Cleaned(p, timeout, e.now), None))
            && (!bad && c.chunkCount == 1 ==> Step(p, timeout, crc, e) == (Cleaned(p, timeout, e.now), Some(c.raw)))
  {
    hide Cleaned, Store, HasRoom;
  }

  /**
   A chunk of a message of several that finds its assembly, or room for one, is put into it under
   its index if its count is that of the assembly; nothing else changes under its key.
   */
  lemma StoredExactly(p: Pending, timeout: nat, crc: Checksum, e: Event)
    requires e.chunk.chunkCount > 1 && Acceptable(e.chunk, crc)
    requires KeyOf(e) in Begun(p, timeout, e.now) || Admitted(p, timeout, e.now, KeyOf(e))
    ensures var (q, out) := Step(p, timeout, crc, e);
            var c, k := e.chunk, KeyOf(e);
            var was := if k in Begun(p, timeout, e.now) then p[k] else Assembly(map[], c.chunkCount, e.now);
            var now := was.(chunks := was.chunks[c.chunkIndex := c.raw]);
            && (c.chunkCount != was.chunkCount ==> out == None && k in q && q[k] == was)
            && (c.chunkCount == was.chunkCount && out == None ==> k in q && q[k] == now)
            && (c.chunkCount == was.chunkCount && out != None ==> k !in q && |now.chunks| == c.chunkCount)
  {
    hide Assemble, HasRoom, Cleaned, Acceptable, Admitted;
    CleanedIsBegun(p, timeout, e.now);
    if KeyOf(e) !in Begun(p, timeout, e.now) {
      AdmittedHasRoom(p, timeout, e.now, KeyOf(e));
    }
  }

  /** The first chunk of a message of several is kept exactly if it is admitted. */
  lemma AdmittedExactly(p: Pending, timeout: nat, crc: Checksum, e: Event)
    requires e.chunk.chunkCount > 1 && Acceptable(e.chunk, crc) && KeyOf(e) !in Begun(p, timeout, e.now)
    ensures KeyOf(e) in Step(p, timeout, crc, e).0 <==> Admitted(p, timeout, e.now, KeyOf(e))
  {
    hide Assemble, Acceptable;
    var clean, k := Cleaned(p, timeout, e.now), KeyOf(e);
    CleanedIsBegun(p, timeout, e.now);
    assert |clean| == |clean.Keys|;
    assert FromIp(clean, k.0.ip) == set b | b in Begun(p, timeout, e.now) && b.0.ip == k.0.ip;
  }

  /** From the empty table, every assembly was begun by an arrival under its key. */
  lemma {:induction false} BegunByArrivals(timeout: nat, crc: Checksum, es: seq<Event>, k: Key)
    requires k in After(map[], timeout, crc, es)
    ensures exists e :: e in es && KeyOf(e) == k && After(map[], timeout, crc, es)[k].firstReceived == e.now
  {
    hide Step;
    var init, last := es[..|es| - 1], es[|es| - 1];
    var p := After(map[], timeout, crc, init);
    assert last in es && forall e :: e in init ==> e in es;
    FirstOrKept(p, timeout, crc, last, k);
    if k in p && After(map[], timeout, crc, es)[k].firstReceived == p[k].firstReceived {
      BegunByArrivals(timeout, crc, init, k);
    }
  }

  lemma FirstOrKept(p: Pending, timeout: nat, crc: Checksum, e: Event, k: Key)
    requires k in Step(p, timeout, crc, e).0
    ensures var q := Step(p, timeout, crc, e).0;
            (k == KeyOf(e) && q[k].firstReceived == e.now) || (k in p && q[k].firstReceived == p[k].firstReceived)
  {
    hide Assemble, HasRoom, Acceptable, Alive;
  }

  // ----- bounded resources -----

  /** Indices in range, and never all of them: a full assembly does not stay. */
  ghost predicate AssemblyOk(a: Assembly) {
    && (forall i :: i in a.chunks ==> i < a.chunkCount)
    && |a.chunks| < a.chunkCount <= MAX_CHUNKS_PER_MESSAGE
  }

  ghost predicate PendingOk(p: Pending) {
    && |p| <= MAX_PENDING_ASSEMBLIES
    && (forall ip: Ip :: |FromIp(p, ip)| <= MAX_PENDING_PER_IP)
    && (forall k :: k in p ==> AssemblyOk(p[k]))
  }

  ghost function Below(n: nat): (s: set<u16>)
    requires n <= 0x1_0000
    ensures forall i: u16 :: i in s <==> i < n
    ensures |s| == n
  {
    if n == 0 then {} else Below(n - 1) + {n - 1}
  }

  /** As many indices below n as n: all of them are there. */
  lemma FullMeansAll(chunks: map<u16, seq<byte>>, n: nat)
    requires n < 0x1_0000
    requires forall i :: i in chunks ==> i < n
    ensures |chunks| <= n
    ensures |chunks| == n ==> forall i: u16 :: i < n ==> i in chunks
  {
    SubsetSize(chunks.Keys, Below(n));
  }

  /** With all parts present the `?` on a missing one never fires. */
  lemma {:induction false} NothingMissing(chunks: map<u16, seq<byte>>, n: nat)
    requires n < 0x1_0000 && forall i: u16 :: i < n ==> i in chunks
    ensures Assemble(chunks, n) == Some(Concat(seq(n, i requires 0 <= i < n => chunks[i])))
  {
    if n > 0 {
      NothingMissing(chunks, n - 1);
      var parts := seq(n, i requires 0 <= i < n => chunks[i]);
      assert parts[..n - 1] == seq(n - 1, i requires 0 <= i < n - 1 => chunks[i]);
    }
  }

  lemma SmallerPending(p: Pending, q: Pending)
    requires PendingOk(p) && q.Keys <= p.Keys && forall k :: k in q ==> q[k] == p[k]
    ensures PendingOk(q)
  {
    SubsetSize(q.Keys, p.Keys);
    forall ip: Ip ensures |FromIp(q, ip)| <= MAX_PENDING_PER_IP {
      assert FromIp(q, ip) <= FromIp(p, ip);
      SubsetSize(FromIp(q, ip), FromIp(p, ip));
    }
  }

  lemma ReplacedPending(p: Pending, k: Key, a: Assembly)
    requires PendingOk(p) && AssemblyOk(a) && (k in p || HasRoom(p, k.0))
    ensures PendingOk(p[k := a])
  {
    hide AssemblyOk;
    var q := p[k := a];
    assert q.Keys == p.Keys + {k};
    forall ip: Ip ensures |FromIp(q, ip)| <= MAX_PENDING_PER_IP {
      if k in p || ip != k.0.ip {
        assert FromIp(q, ip) == FromIp(p, ip);
      } else {
        assert FromIp(q, ip) == FromIp(p, ip) + {k};
      }
    }
  }

  /**
   Storing a chunk of acceptable geometry keeps the bounds; what remains in the table is never
   complete, and a completed assembly is always put out.
   */
  lemma StoreKeepsBounds(p: Pending, k: Key, a: Assembly, c: UdpChunk)
    requires PendingOk(p) && (k in p || HasRoom(p, k.0)) && AssemblyOk(a)
    requires c.chunkIndex < c.chunkCount
    ensures PendingOk(Store(p, k, a, c).0)
    ensures Store(p, k, a, c).1.Some? <==>
              c.chunkCount == a.chunkCount && |a.chunks[c.chunkIndex := c.raw]| == a.chunkCount
  {
    hide PendingOk;
    if a.chunkCount != c.chunkCount {
      ReplacedPending(p, k, a);
    } else {
      var b := a.(chunks := a.chunks[c.chunkIndex := c.raw]);
      FullMeansAll(b.chunks, b.chunkCount);
      if |b.chunks| == b.chunkCount {
        NothingMissing(b.chunks, b.chunkCount);
        SmallerPending(p, p - {k});
      } else {
        ReplacedPending(p, k, b);
      }
    }
  }

  lemma StepKeepsBounds(p: Pending, timeout: nat, crc: Checksum, e: Event)
    requires PendingOk(p)
    ensures PendingOk(Step(p, timeout, crc, e).0)
  {
    hide PendingOk, Store;
    var q := Cleaned(p, timeout, e.now);
    SmallerPending(p, q);
    var c, k := e.chunk, KeyOf(e);
    if Acceptable(c, crc) && !(c.chunkCount == 1 && c.chunkIndex == 0) {
      if k in q {
        EntryOk(q, k);
        StoreKeepsBounds(q, k, q[k], c);
      } else if HasRoom(q, e.src) {
        StoreKeepsBounds(q, k, Assembly(map[], c.chunkCount, e.now), c);
      }
    }
  }

  lemma EntryOk(p: Pending, k: Key)
    requires PendingOk(p) && k in p
    ensures AssemblyOk(p[k])
  {
  }

  /** At every moment of every run: at most 256 assemblies, at most 16 per address, none complete. */
  lemma {:induction false} RunKeepsBounds(p: Pending, timeout: nat, crc: Checksum, es: seq<Event>)
    requires PendingOk(p)
    ensures PendingOk(After(p, timeout, crc, es))
    ensures |After(p, timeout, crc, es)| <= 256
    ensures forall ip: Ip :: |FromIp(After(p, timeout, crc, es), ip)| <= 16
  {
    if es != [] {
      hide PendingOk, Step;
      RunKeepsBounds(p, timeout, crc, es[..|es| - 1]);
      StepKeepsBounds(After(p, timeout, crc, es[..|es| - 1]), timeout, crc, es[|es| - 1]);
    }
  }

  // ----- only originals come out -----

  /** Messages whose senders chose distinct (source, message id) pairs. */
  type Registry = map<Key, seq<byte>>

  ghost predicate Chunkable(data: seq<byte>) {
    PartCount(data) <= MAX_CHUNKS_PER_MESSAGE
  }

  /** Whatever arrives under a registered key is a chunk of the message registered there. */
  ghost predicate Honest(reg: Registry, crc: Checksum, e: Event) {
    KeyOf(e) in reg ==> e.chunk in Split(e.chunk.messageId, reg[KeyOf(e)], crc)
  }

  ghost predicate Partial(data: seq<byte>, a: Assembly) {
    && a.chunkCount == PartCount(data)
    && forall i :: i in a.chunks ==> i < PartCount(data) && a.chunks[i] == Part(data, i)
  }

  ghost predicate Consistent(reg: Registry, p: Pending) {
    forall k :: k in p && k in reg ==> Partial(reg[k], p[k])
  }

  lemma ChunkFields(id: MessageId, data: seq<byte>, crc: Checksum, c: UdpChunk)
    requires Chunkable(data) && c in Split(id, data, crc)
    ensures c.chunkIndex < c.chunkCount == PartCount(data)
    ensures c.raw == Part(data, c.chunkIndex) && crc(c.raw) == c.checksum
    ensures Acceptable(c, crc)
  {
    hide Part;
  }

  lemma WholeMessage(data: seq<byte>, a: Assembly)
    requires Chunkable(data) && Partial(data, a)
    requires |a.chunks| == a.chunkCount
    ensures Assemble(a.chunks, a.chunkCount) == Some(data)
  {
    var n := PartCount(data);
    FullMeansAll(a.chunks, n);
    NothingMissing(a.chunks, n);
    assert seq(n, i requires 0 <= i < n => a.chunks[i]) == seq(n, i requires 0 <= i < n => Part(data, i));
    PartsJoin(data, n);
    assert Min(CHUNK_PAYLOAD_SIZE * n, |data|) == |data| && data[..|data|] == data;
  }

  /** A registered key's chunk, stored into a partial assembly of its message. */
  lemma StoreOriginal(p: Pending, k: Key, a: Assembly, c: UdpChunk, data: seq<byte>, crc: Checksum)
    requires Chunkable(data) && Partial(data, a) && c in Split(c.messageId, data, crc)
    ensures var b := a.(chunks := a.chunks[c.chunkIndex := c.raw]);
            && Partial(data, b)
            && Store(p, k, a, c) == if |b.chunks| == PartCount(data) then (p - {k}, Some(data)) else (p[k := b], None)
  {
    ChunkFields(c.messageId, data, crc, c);
    var b := a.(chunks := a.chunks[c.chunkIndex := c.raw]);
    if |b.chunks| == PartCount(data) {
      WholeMessage(data, b);
    }
  }

  /** Other keys are touched by nothing but expiry. */
  lemma StepOtherKey(p: Pending, timeout: nat, crc: Checksum, e: Event, k: Key)
    requires KeyOf(e) != k
    ensures var q := Step(p, timeout, crc, e).0;
            && (k in q <==> k in p && Alive(p[k], timeout, e.now))
            && (k in q ==> q[k] == p[k])
  {
    hide Assemble, HasRoom;
  }

  /** One arrival: registered keys stay consistent, and only the registered message comes out. */
  lemma StepSafe(reg: Registry, p: Pending, timeout: nat, crc: Checksum, e: Event)
    requires (forall k :: k in reg ==> Chunkable(reg[k])) && Consistent(reg, p) && Honest(reg, crc, e)
    ensures Consistent(reg, Step(p, timeout, crc, e).0)
    ensures KeyOf(e) in reg && Step(p, timeout, crc, e).1.Some? ==> Step(p, timeout, crc, e).1.value == reg[KeyOf(e)]
  {
    hide Store, Alive, Split, HasRoom, Partial;
    var q, k0 := Step(p, timeout, crc, e).0, KeyOf(e);
    forall k | k in q && k in reg && k != k0 ensures Partial(reg[k], q[k]) {
      StepOtherKey(p, timeout, crc, e, k);
    }
    if k0 in reg {
      StepOwnKey(reg[k0], p, timeout, crc, e);
    }
  }

  /** What one arrival does under its own, registered, key. */
  lemma StepOwnKey(data: seq<byte>, p: Pending, timeout: nat, crc: Checksum, e: Event)
    requires Chunkable(data) && e.chunk in Split(e.chunk.messageId, data, crc)
    requires KeyOf(e) in p ==> Partial(data, p[KeyOf(e)])
    ensures var (q, out) := Step(p, timeout, crc, e);
            && (KeyOf(e) in q ==> Partial(data, q[KeyOf(e)]))
            && (out.Some? ==> out.value == data)
  {
    hide Alive, Split, HasRoom, Store;
    var c, k, clean := e.chunk, KeyOf(e), Cleaned(p, timeout, e.now);
    ChunkFields(c.messageId, data, crc, c);
    if c.chunkCount == 1 && c.chunkIndex == 0 {
      OnlyPart(data);
    } else if k in clean {
      StoreOriginal(clean, k, clean[k], c, data, crc);
    } else if HasRoom(clean, e.src) {
      StoreOriginal(clean, k, Assembly(map[], c.chunkCount, e.now), c, data, crc);
    }
  }

  lemma OnlyPart(data: seq<byte>)
    requires PartCount(data) == 1
    ensures Part(data, 0) == data
  {
  }

  /**
   Reassembly safety: in any interleaving of chunks from any senders, whatever the assembler
   puts out under a registered key is exactly the message registered under it.
   */
  lemma {:induction false} RunSafe(reg: Registry, p: Pending, timeout: nat, crc: Checksum, es: seq<Event>)
    requires forall k :: k in reg ==> Chunkable(reg[k])
    requires Consistent(reg, p) && forall e :: e in es ==> Honest(reg, crc, e)
    ensures Consistent(reg, After(p, timeout, crc, es))
    ensures es != [] && KeyOf(es[|es| - 1]) in reg && Output(p, timeout, crc, es).Some? ==>
              Output(p, timeout, crc, es).value == reg[KeyOf(es[|es| - 1])]
  {
    hide Step, Consistent, Honest, Chunkable;
    if es != [] {
      var init := es[..|es| - 1];
      RunSafe(reg, p, timeout, crc, init);
      assert es[|es| - 1] in es;
      StepSafe(reg, After(p, timeout, crc, init), timeout, crc, es[|es| - 1]);
    }
  }

  // ----- and they do come out -----

  /** The indices of key `k` that have arrived so far. */
  ghost function Arrived(es: seq<Event>, k: Key): set<u16> {
    set e | e in es && KeyOf(e) == k :: e.chunk.chunkIndex
  }

  /** The arrivals of key `k` are chunks of `data`, and nothing comes later than the timeout allows. */
  ghost predicate InTime(es: seq<Event>, k: Key, data: seq<byte>, timeout: nat, crc: Checksum) {
    && es != [] && KeyOf(es[0]) == k
    && (forall e :: e in es && KeyOf(e) == k ==> e.chunk in Split(k.1, data, crc))
    && (forall e :: e in es ==> es[0].now <= e.now < es[0].now + timeout)
  }

  lemma ArrivedLast(es: seq<Event>, k: Key)
    requires es != []
    ensures var last := es[|es| - 1];
            Arrived(es, k) == Arrived(es[..|es| - 1], k) + (if KeyOf(last) == k then {last.chunk.chunkIndex} else {})
  {
  }

  /**
   While indices are missing, the assembly holds exactly the parts that have arrived.
   */
  ghost predicate Collecting(p: Pending, k: Key, data: seq<byte>, es: seq<Event>)
    requires es != []
  {
    k in p && Partial(data, p[k]) && p[k].chunks.Keys == Arrived(es, k) && p[k].firstReceived == es[0].now
  }

  lemma StepCollects(before: Pending, timeout: nat, crc: Checksum, es: seq<Event>, k: Key, data: seq<byte>)
    requires |es| > 1 && InTime(es, k, data, timeout, crc) && Chunkable(data) && PartCount(data) > 1
    requires Collecting(before, k, data, es[..|es| - 1])
    ensures var (q, out) := Step(before, timeout, crc, es[|es| - 1]);
            if |Arrived(es, k)| == PartCount(data) && KeyOf(es[|es| - 1]) == k then out == Some(data) && k !in q
            else (KeyOf(es[|es| - 1]) == k ==> out == None) && Collecting(q, k, data, es)
  {
    hide Split, Store, HasRoom, Arrived;
    var e := es[|es| - 1];
    assert e in es && es[..|es| - 1][0] == es[0];
    ArrivedLast(es, k);
    assert Alive(before[k], timeout, e.now);
    if KeyOf(e) == k {
      var clean := Cleaned(before, timeout, e.now);
      ChunkFields(k.1, data, crc, e.chunk);
      StoreOriginal(clean, k, clean[k], e.chunk, data, crc);
      var b := clean[k].(chunks := clean[k].chunks[e.chunk.chunkIndex := e.chunk.raw]);
      assert b.chunks.Keys == Arrived(es, k);
      assert |b.chunks| == |b.chunks.Keys|;
    } else {
      StepOtherKey(before, timeout, crc, e, k);
    }
  }

  lemma FirstCollects(before: Pending, timeout: nat, crc: Checksum, e: Event, k: Key, data: seq<byte>)
    requires InTime([e], k, data, timeout, crc) && Chunkable(data) && PartCount(data) > 1
    requires Admitted(before, timeout, e.now, k)
    ensures var (q, out) := Step(before, timeout, crc, e);
            out == None && Collecting(q, k, data, [e])
  {
    hide Split, Store, HasRoom, Cleaned, Admitted;
    assert e in [e];
    AdmittedHasRoom(before, timeout, e.now, k);
    var clean := Cleaned(before, timeout, e.now);
    var a := Assembly(map[], e.chunk.chunkCount, e.now);
    ChunkFields(k.1, data, crc, e.chunk);
    StoreOriginal(clean, k, a, e.chunk, data, crc);
    var b := a.(chunks := a.chunks[e.chunk.chunkIndex := e.chunk.raw]);
    assert b.chunks.Keys == {e.chunk.chunkIndex} == Arrived([e], k);
    assert |b.chunks| == |b.chunks.Keys| == 1;
  }

  lemma {:induction false} KeepsCollecting(p: Pending, timeout: nat, crc: Checksum, es: seq<Event>, k: Key,
                                           data: seq<byte>)
    requires InTime(es, k, data, timeout, crc) && Chunkable(data) && PartCount(data) > 1
    requires Admitted(p, timeout, es[0].now, k)
    requires |Arrived(es, k)| < PartCount(data)
    ensures Collecting(After(p, timeout, crc, es), k, data, es)
    ensures KeyOf(es[|es| - 1]) == k ==> Output(p, timeout, crc, es) == None
  {
    hide Step, Arrived, Collecting, Admitted;
    var init := es[..|es| - 1];
    if init == [] {
      assert es == [es[0]] && After(p, timeout, crc, init) == p;
      FirstCollects(p, timeout, crc, es[0], k, data);
    } else {
      assert forall e :: e in init ==> e in es;
      ArrivedLast(es, k);
      SubsetSize(Arrived(init, k), Arrived(es, k));
      KeepsCollecting(p, timeout, crc, init, k, data);
      StepCollects(After(p, timeout, crc, init), timeout, crc, es, k, data);
    }
  }

  /**
   Delivery: if the first chunk of a message is admitted and all of its indices arrive before the
   timeout, in any order, with repetitions, and among any other traffic, then the message
   is put out exactly when its last missing index arrives, and none of its earlier chunks
   makes the assembler put anything out.
   */
  lemma EmittedWhenComplete(p: Pending, timeout: nat, crc: Checksum, es: seq<Event>, k: Key, data: seq<byte>, j: nat)
    requires InTime(es, k, data, timeout, crc) && Chunkable(data) && PartCount(data) > 1
    requires Admitted(p, timeout, es[0].now, k)
    requires |Arrived(es[..|es| - 1], k)| < PartCount(data) == |Arrived(es, k)|
    requires j < |es| && KeyOf(es[j]) == k
    ensures Output(p, timeout, crc, es[..j + 1]) == if j == |es| - 1 then Some(data) else None
    ensures k !in After(p, timeout, crc, es)
  {
    hide Step, Collecting, Admitted, Arrived, Split, Chunkable;
    var init := es[..|es| - 1];
    NotFirst(es, k, data);
    InTimePrefix(es, |es| - 1, k, data, timeout, crc);
    KeepsCollecting(p, timeout, crc, init, k, data);
    StepCollects(After(p, timeout, crc, init), timeout, crc, es, k, data);
    assert es[..|es|] == es;
    if j < |es| - 1 {
      assert es[..j + 1] == init[..j + 1] && es[..j + 1][j] == es[j];
      ArrivedMonotone(init, j + 1, k);
      InTimePrefix(es, j + 1, k, data, timeout, crc);
      KeepsCollecting(p, timeout, crc, es[..j + 1], k, data);
    } else {
      ArrivedLast(es, k);
    }
  }

  lemma NotFirst(es: seq<Event>, k: Key, data: seq<byte>)
    requires es != [] && PartCount(data) > 1
    requires |Arrived(es[..|es| - 1], k)| < PartCount(data) == |Arrived(es, k)|
    ensures |es| > 1 && KeyOf(es[|es| - 1]) == k
  {
    hide Arrived;
    ArrivedLast(es, k);
    if |es| == 1 {
      assert es[..0] == [];
      NothingArrived(k);
    }
  }

  lemma NothingArrived(k: Key)
    ensures Arrived([], k) == {}
  {
  }

  lemma InTimePrefix(es: seq<Event>, n: nat, k: Key, data: seq<byte>, timeout: nat, crc: Checksum)
    requires InTime(es, k, data, timeout, crc) && 0 < n <= |es|
    ensures InTime(es[..n], k, data, timeout, crc) && es[..n][0] == es[0]
  {
  }

  lemma ArrivedMonotone(es: seq<Event>, n: nat, k: Key)
    requires n <= |es|
    ensures Arrived(es[..n], k) <= Arrived(es, k) && |Arrived(es[..n], k)| <= |Arrived(es, k)|
  {
    assert forall e :: e in es[..n] ==> e in es;
    SubsetSize(Arrived(es[..n], k), Arrived(es, k));
  }
}
