/**
 Splitting messages into UDP chunks and putting them together again
 (nodex-kademlia/src/chunking.rs). The checksum is an arbitrary function; the raw bytes
 stand for the payload, of which the source also carries a hexadecimal copy.
 */
module Chunking {
  import opened Bytes
  import opened Contacts
  import opened Codec

  const BINARY_HEADER_SIZE: nat := 28
  const CHUNK_PAYLOAD_SIZE: nat := 500
  const MAX_CHUNKS_PER_MESSAGE: nat := 256
  const MAX_PENDING_ASSEMBLIES: nat := 256
  const MAX_PENDING_PER_IP: nat := 16

  /** "NXCK" */
  const BINARY_MAGIC: seq<byte> := [0x4E, 0x58, 0x43, 0x4B]

  type MessageId = s: seq<byte> | |s| == 16 witness seq(16, _ => 0)
  type Checksum = seq<byte> -> u32

  datatype UdpChunk = UdpChunk(messageId: MessageId, chunkIndex: u16, chunkCount: u16, checksum: u32, raw: seq<byte>)

  // ----- splitting -----

  function PartCount(data: seq<byte>): nat {
    if data == [] then 1 else (|data| + CHUNK_PAYLOAD_SIZE - 1) / CHUNK_PAYLOAD_SIZE
  }

  /** The `i`-th slice of at most 500 bytes. */
  function Part(data: seq<byte>, i: nat): seq<byte>
    requires i < PartCount(data)
  {
    data[CHUNK_PAYLOAD_SIZE * i..Min(CHUNK_PAYLOAD_SIZE * (i + 1), |data|)]
  }

  /** Index and count are cast to 16 bits. */
  function ChunkOf(id: MessageId, data: seq<byte>, crc: Checksum, i: nat): UdpChunk
    requires i < PartCount(data)
  {
    UdpChunk(id, i % 0x1_0000, PartCount(data) % 0x1_0000, crc(Part(data, i)), Part(data, i))
  }

  function Split(id: MessageId, data: seq<byte>, crc: Checksum): (chunks: seq<UdpChunk>)
    ensures |chunks| == PartCount(data)
  {
    seq(PartCount(data), i requires 0 <= i < PartCount(data) => ChunkOf(id, data, crc, i))
  }

  method SplitData(id: MessageId, data: seq<byte>, crc: Checksum) returns (chunks: seq<UdpChunk>)
    ensures chunks == Split(id, data, crc)
  {
    if data == [] {
      return [UdpChunk(id, 0, 1, crc([]), [])];
    }
    var count := PartCount(data) % 0x1_0000;
    chunks := [];
    var start, idx := 0, 0;
    while start < |data|
      invariant start == Min(CHUNK_PAYLOAD_SIZE * idx, |data|)
      invariant idx <= PartCount(data) && (start == |data| ==> idx == PartCount(data))
      invariant chunks == Split(id, data, crc)[..idx]
    {
      var stop := Min(start + CHUNK_PAYLOAD_SIZE, |data|);
      var slice := data[start..stop];
      chunks := chunks + [UdpChunk(id, idx % 0x1_0000, count, crc(slice), slice)];
      start, idx := stop, idx + 1;
    }
  }

  /** The parts, in order, are the data. */
  lemma {:induction false} PartsJoin(data: seq<byte>, n: nat)
    requires n <= PartCount(data)
    ensures Concat(seq(n, i requires 0 <= i < n => Part(data, i))) == data[..Min(CHUNK_PAYLOAD_SIZE * n, |data|)]
  {
    if n > 0 {
      PartsJoin(data, n - 1);
      var parts := seq(n, i requires 0 <= i < n => Part(data, i));
      assert parts[..n - 1] == seq(n - 1, i requires 0 <= i < n - 1 => Part(data, i));
    }
  }

  function Concat(parts: seq<seq<byte>>): seq<byte> {
    if parts == [] then [] else Concat(parts[..|parts| - 1]) + parts[|parts| - 1]
  }

  // ----- the binary form -----

  function ToBytes(c: UdpChunk): seq<byte> {
    BINARY_MAGIC + c.messageId + ToBE(c.chunkIndex, 2) + ToBE(c.chunkCount, 2) + ToBE(c.checksum, 4) + c.raw
  }

  function FromBytes(s: seq<byte>): Result<UdpChunk> {
    if |s| < BINARY_HEADER_SIZE then Err
    else if s[..4] != BINARY_MAGIC then Err
    else
      U16(s[20..22]);
      U16(s[22..24]);
      U32(s[24..28]);
      Ok(UdpChunk(s[4..20], FromBE(s[20..22]), FromBE(s[22..24]), FromBE(s[24..28]), s[28..]))
  }

  lemma ChunkRoundTrip(c: UdpChunk)
    ensures FromBytes(ToBytes(c)) == Ok(c)
    ensures |ToBytes(c)| == BINARY_HEADER_SIZE + |c.raw| && ToBytes(c)[..4] == BINARY_MAGIC
  {
    hide FromBE, ToBE;
    var s := ToBytes(c);
    assert s[..4] == BINARY_MAGIC && s[4..20] == c.messageId;
    assert s[20..22] == ToBE(c.chunkIndex, 2) && s[22..24] == ToBE(c.chunkCount, 2);
    assert s[24..28] == ToBE(c.checksum, 4) && s[28..] == c.raw;
    Pow256Values();
    BERoundTrip(c.chunkIndex, 2);
    BERoundTrip(c.chunkCount, 2);
    BERoundTrip(c.checksum, 4);
  }

  /** Whatever is read as a chunk is the binary form of that chunk. */
  lemma ChunkOfBytes(s: seq<byte>)
    requires |s| >= 28 && s[..4] == BINARY_MAGIC
    ensures FromBytes(s).Ok? && ToBytes(FromBytes(s).value) == s
  {
    hide FromBE, ToBE;
    ToBEOfFromBE(s[20..22]);
    ToBEOfFromBE(s[22..24]);
    ToBEOfFromBE(s[24..28]);
    assert s == s[..4] + s[4..20] + s[20..22] + s[22..24] + s[24..28] + s[28..];
  }

  // ----- reassembly, as a value -----

  datatype Assembly = Assembly(chunks: map<u16, seq<byte>>, chunkCount: u16, firstReceived: nat)

  type Key = (SocketAddr, MessageId)
  type Pending = map<Key, Assembly>

  datatype Event = Event(now: nat, src: SocketAddr, chunk: UdpChunk)

  function KeyOf(e: Event): Key {
    (e.src, e.chunk.messageId)
  }

  predicate Alive(a: Assembly, timeout: nat, now: nat) {
    (if now >= a.firstReceived then now - a.firstReceived else 0) < timeout
  }

  function Cleaned(p: Pending, timeout: nat, now: nat): Pending {
    map k | k in p && Alive(p[k], timeout, now) :: p[k]
  }

  /** Geometry and checksum are checked before anything is stored. */
  predicate Acceptable(c: UdpChunk, crc: Checksum) {
    c.chunkCount != 0 && c.chunkCount <= MAX_CHUNKS_PER_MESSAGE && c.chunkIndex < c.chunkCount
    && crc(c.raw) == c.checksum
  }

  function FromIp(p: Pending, ip: Ip): set<Key> {
    set k | k in p && k.0.ip == ip
  }

  predicate HasRoom(p: Pending, src: SocketAddr) {
    |p| < MAX_PENDING_ASSEMBLIES && |FromIp(p, src.ip)| < MAX_PENDING_PER_IP
  }

  /** Concatenates entries 0 to n - 1, giving up at the first one missing. */
  function Assemble(chunks: map<u16, seq<byte>>, n: nat): Option<seq<byte>>
    requires n < 0x1_0000
  {
    if n == 0 then Some([])
    else
      match Assemble(chunks, n - 1)
      case None => None
      case Some(d) => if n - 1 in chunks then Some(d + chunks[n - 1]) else None
  }

  /** Storing one more chunk of a known assembly; the assembly leaves when it is complete. */
  function Store(p: Pending, k: Key, a: Assembly, c: UdpChunk): (Pending, Option<seq<byte>>) {
    if a.chunkCount != c.chunkCount then (p[k := a], None)
    else
      var b := a.(chunks := a.chunks[c.chunkIndex := c.raw]);
      if |b.chunks| != b.chunkCount then (p[k := b], None)
      else
        match Assemble(b.chunks, b.chunkCount)
        case None => (p[k := b], None)
        case Some(d) => (p - {k}, Some(d))
  }

  function Step(before: Pending, timeout: nat, crc: Checksum, e: Event): (Pending, Option<seq<byte>>) {
    var p := Cleaned(before, timeout, e.now);
    var c, k := e.chunk, KeyOf(e);
    if !Acceptable(c, crc) then (p, None)
    else if c.chunkCount == 1 && c.chunkIndex == 0 then (p, Some(c.raw))
    else if k in p then Store(p, k, p[k], c)
    else if !HasRoom(p, e.src) then (p, None)
    else Store(p, k, Assembly(map[], c.chunkCount, e.now), c)
  }

  class ChunkAssembler {
    var pending: Pending
    const reassemblyTimeout: nat

    constructor (timeout: nat)
      ensures pending == map[] && reassemblyTimeout == timeout
    {
      pending := map[];
      reassemblyTimeout := timeout;
    }

    method CleanupExpired(now: nat)
      modifies this
      ensures pending == Cleaned(old(pending), reassemblyTimeout, now)
    {
      pending := map k | k in pending && Alive(pending[k], reassemblyTimeout, now) :: pending[k];
    }

    /** `add_chunk`, with the `?` on a missing part kept as an early return. */
    method AddChunk(crc: Checksum, now: nat, src: SocketAddr, chunk: UdpChunk) returns (complete: Option<seq<byte>>)
      modifies this
      ensures (pending, complete) == Step(old(pending), reassemblyTimeout, crc, Event(now, src, chunk))
    {
      hide Cleaned, FromIp, Store;
      CleanupExpired(now);
      if chunk.chunkCount == 0 || chunk.chunkCount > MAX_CHUNKS_PER_MESSAGE || chunk.chunkIndex >= chunk.chunkCount {
        return None;
      }
      if crc(chunk.raw) != chunk.checksum {
        return None;
      }
      if chunk.chunkCount == 1 && chunk.chunkIndex == 0 {
        return Some(chunk.raw);
      }
      var key := (src, chunk.messageId);
      if key !in pending {
        if |pending| >= MAX_PENDING_ASSEMBLIES {
          return None;
        }
        if |FromIp(pending, src.ip)| >= MAX_PENDING_PER_IP {
          return None;
        }
        StoreFresh(pending, key, Assembly(map[], chunk.chunkCount, now), chunk);
        pending := pending[key := Assembly(map[], chunk.chunkCount, now)];
      }
      complete := AddToEntry(key, chunk);
    }

    method AddToEntry(key: Key, chunk: UdpChunk) returns (complete: Option<seq<byte>>)
      requires key in pending
      modifies this
      ensures (pending, complete) == Store(old(pending), key, old(pending)[key], chunk)
    {
      ghost var p := pending;
      var entry := pending[key];
      if entry.chunkCount != chunk.chunkCount {
        assert pending == pending[key := entry];
        return None;
      }
      entry := entry.(chunks := entry.chunks[chunk.chunkIndex := chunk.raw]);
      pending := pending[key := entry];
      if |entry.chunks| == entry.chunkCount {
        var assembled := [];
        for i := 0 to entry.chunkCount
          invariant Assemble(entry.chunks, i) == Some(assembled)
          invariant pending == p[key := entry]
        {
          if i !in entry.chunks {
            MissingPart(entry.chunks, i, entry.chunkCount);
            return None;
          }
          assembled := assembled + entry.chunks[i];
        }
        assert p[key := entry] - {key} == p - {key};
        pending := pending - {key};
        return Some(assembled);
      }
      return None;
    }
  }

  /** Creating the entry first and storing into it is storing into a new entry. */
  lemma StoreFresh(p: Pending, k: Key, a: Assembly, c: UdpChunk)
    ensures Store(p[k := a], k, a, c) == Store(p, k, a, c)
  {
    assert p[k := a] - {k} == p - {k};
    var b := a.(chunks := a.chunks[c.chunkIndex := c.raw]);
    assert p[k := a][k := a] == p[k := a] && p[k := a][k := b] == p[k := b];
  }

  lemma {:induction false} MissingPart(chunks: map<u16, seq<byte>>, i: nat, n: nat)
    requires i < n < 0x1_0000 && i !in chunks
    ensures Assemble(chunks, n) == None
  {
    if i < n - 1 {
      MissingPart(chunks, i, n - 1);
    }
  }
}
