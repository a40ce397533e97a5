/**
 RPC messages, their conversion to and from the wire, the decision to send them whole or in
 chunks, and the receive loop's demultiplexer (nodex-kademlia/src/rpc.rs).
 */
module Rpc {
  import opened Bytes
  import opened NodeIds
  import opened Contacts
  import opened Codec
  import opened Chunking
  import opened Reassembly

  const CHUNK_THRESHOLD: nat := 1100

  /** "NXCA": encrypted voice frames, not for this layer. */
  const AUDIO_MAGIC: seq<byte> := [0x4E, 0x58, 0x43, 0x41]

  datatype RpcPayload =
    | Ping
    | Pong
    | Store(key: Id, value: seq<byte>)
    | StoreAck(ok: bool)
    | FindNode(targetId: Id)
    | FindNodeResp(contacts: seq<Contact>)
    | FindValue(key: Id)
    | FindValueResp(found: Option<seq<byte>>, contacts: seq<Contact>)

  datatype RpcMessage = RpcMessage(requestId: u64, senderId: Id, payload: RpcPayload)

  // ----- contacts -----

  function ContactToC(c: Contact): CContact {
    match c.addr.ip
    case V4(o) => CContact(c.id, 4, o + seq(12, _ => 0), c.addr.port)
    case V6(o) => CContact(c.id, 6, o, c.addr.port)
  }

  /** The receiver rejects port 0 and addresses nobody can be reached at. */
  function CToContact(c: CContact, now: nat): Result<Contact> {
    if c.port == 0 then Err
    else if c.ipType == 4 then
      var ip := V4(c.ip[..4]);
      if ip.IsUnspecified() || ip.IsBroadcast() || ip.IsMulticast() then Err
      else Ok(Contact(c.id, SocketAddr(ip, c.port), now))
    else if c.ipType == 6 then
      var ip := V6(c.ip);
      if ip.IsUnspecified() || ip.IsMulticast() then Err
      else Ok(Contact(c.id, SocketAddr(ip, c.port), now))
    else Err
  }

  predicate Routable(a: SocketAddr) {
    a.port != 0 && !a.ip.IsUnspecified() && !a.ip.IsBroadcast() && !a.ip.IsMulticast()
  }

  lemma ContactSurvives(c: Contact, now: nat)
    ensures CToContact(ContactToC(c), now)
            == if Routable(c.addr) then Ok(c.(lastSeen := now)) else Err
  {
  }

  /** Routable are all addresses but port 0, 0.0.0.0, ::, 255.255.255.255 and the multicast ranges. */
  lemma RoutableExactly(a: SocketAddr)
    ensures Routable(a) <==>
              && a.port != 0
              && (a.ip.V4? ==> a.ip.octets4 != [0, 0, 0, 0] && a.ip.octets4 != [255, 255, 255, 255]
                               && !(224 <= a.ip.octets4[0] <= 239))
              && (a.ip.V6? ==> a.ip.octets6[0] != 255 && exists k :: 0 <= k < 16 && a.ip.octets6[k] != 0)
  {
    if a.ip.V6? && forall k :: 0 <= k < 16 ==> a.ip.octets6[k] == 0 {
      assert a.ip.octets6 == seq(16, _ => 0);
    }
  }

  /** Converts in order; the first contact that is refused fails the whole message. */
  function ContactsFrom(cs: seq<CContact>, now: nat): Result<seq<Contact>> {
    if cs == [] then Ok([])
    else
      match CToContact(cs[0], now)
      case Err => Err
      case Ok(c) =>
        match ContactsFrom(cs[1..], now)
        case Err => Err
        case Ok(rest) => Ok([c] + rest)
  }

  function ToArray(cs: seq<Contact>): (byte, ContactArray) {
    var n := Min(|cs|, MAX_CONTACTS);
    (Byte(n), Padded(seq(n, i requires 0 <= i < n => ContactToC(cs[i]))))
  }

  // ----- messages -----

  function ToCMessage(m: RpcMessage): Result<CMessage> {
    var id, sender := m.requestId, m.senderId;
    match m.payload
    case Ping => Ok(CMessage(MSG_PING, id, sender, NoPayload))
    case Pong => Ok(CMessage(MSG_PONG, id, sender, NoPayload))
    case Store(key, value) =>
      if |value| > MAX_VALUE_SIZE then Err
      else Ok(CMessage(MSG_STORE, id, sender, CStore(key, |value|, value)))
    case StoreAck(ok) => Ok(CMessage(MSG_STORE_ACK, id, sender, CStoreAck(if ok then 0 else 1)))
    case FindNode(target) => Ok(CMessage(MSG_FIND_NODE, id, sender, CFindNode(target)))
    case FindNodeResp(contacts) =>
      var (n, cs) := ToArray(contacts);
      Ok(CMessage(MSG_FIND_NODE_RESP, id, sender, CFindNodeResp(n, cs)))
    case FindValue(key) => Ok(CMessage(MSG_FIND_VALUE, id, sender, CFindValue(key)))
    case FindValueResp(Some(v), _) =>
      if |v| > MAX_VALUE_SIZE then Err
      else Ok(CMessage(MSG_FIND_VALUE_RESP, id, sender, CFindValueResp(1, |v|, v, 0, Padded([]))))
    case FindValueResp(None, contacts) =>
      var (n, cs) := ToArray(contacts);
      Ok(CMessage(MSG_FIND_VALUE_RESP, id, sender, CFindValueResp(0, 0, [], n, cs)))
  }

  function PayloadFrom(c: CMessage, now: nat): Result<RpcPayload> {
    if c.msgType == MSG_PING then Ok(Ping)
    else if c.msgType == MSG_PONG then Ok(Pong)
    else
      match c.payload
      case CStore(key, len, value) =>
        if c.msgType != MSG_STORE || len > MAX_VALUE_SIZE then Err else Ok(Store(key, value))
      case CStoreAck(status) =>
        if c.msgType != MSG_STORE_ACK then Err else Ok(StoreAck(status == 0))
      case CFindNode(target) =>
        if c.msgType != MSG_FIND_NODE then Err else Ok(FindNode(target))
      case CFindNodeResp(count, contacts) =>
        if c.msgType != MSG_FIND_NODE_RESP then Err
        else
          (match ContactsFrom(contacts[..Min(Val(count), MAX_CONTACTS)], now)
           case Err => Err
           case Ok(cs) => Ok(FindNodeResp(cs)))
      case CFindValue(key) =>
        if c.msgType != MSG_FIND_VALUE then Err else Ok(FindValue(key))
      case CFindValueResp(has, len, found, count, contacts) =>
        if c.msgType != MSG_FIND_VALUE_RESP then Err
        else if has != 0 then
          if len > MAX_VALUE_SIZE then Err else Ok(FindValueResp(Some(found), []))
        else
          (match ContactsFrom(contacts[..Min(Val(count), MAX_CONTACTS)], now)
           case Err => Err
           case Ok(cs) => Ok(FindValueResp(None, cs)))
      case NoPayload => Err
  }

  function FromCMessage(c: CMessage, now: nat): Result<RpcMessage> {
    match PayloadFrom(c, now)
    case Err => Err
    case Ok(p) => Ok(RpcMessage(c.requestId, c.senderId, p))
  }

  function Encoded(m: RpcMessage): Result<seq<byte>> {
    match ToCMessage(m)
    case Err => Err
    case Ok(c) => Ok(Serialize(c))
  }

  function Decoded(bytes: seq<byte>, now: nat): Result<RpcMessage> {
    match Parse(bytes)
    case None => Err
    case Some(c) => FromCMessage(c, now)
  }

  function EstimatedSize(p: RpcPayload): nat {
    match p
    case Store(_, value) => 64 + |value|
    case FindValueResp(Some(v), _) => 64 + |v|
    case _ => 1024
  }

  /** The estimated buffer is never too small, and no message exceeds 65589 bytes. */
  lemma EstimateSuffices(m: RpcMessage)
    requires ToCMessage(m).Ok?
    ensures Encodable(ToCMessage(m).value) && Matching(ToCMessage(m).value)
    ensures |Serialize(ToCMessage(m).value)| <= EstimatedSize(m.payload)
    ensures |Serialize(ToCMessage(m).value)| <= 65536 + 53
  {
    hide SerializeContacts, ToBE, Byte, ToArray, Padded;
  }

  method Encode(m: RpcMessage) returns (r: Result<seq<byte>>)
    ensures r == Encoded(m)
  {
    hide Serialize, Encodable, ToCMessage;
    var c := ToCMessage(m);
    if c.Err? {
      return Err;
    }
    EstimateSuffices(m);
    var buf := new byte[EstimatedSize(m.payload)](_ => 0);
    var written := EncodeMessage(c.value, buf);
    if written < 0 {
      return Err;
    }
    return Ok(buf[..written]);
  }

  method Decode(bytes: seq<byte>, now: nat) returns (r: Result<RpcMessage>)
    ensures r == Decoded(bytes, now)
  {
    hide Parse, FromCMessage;
    var c := DecodeMessage(bytes);
    if c.None? {
      return Err;
    }
    return FromCMessage(c.value, now);
  }

  // ----- the round trip -----

  predicate AllRoutable(cs: seq<Contact>) {
    forall i :: 0 <= i < |cs| ==> Routable(cs[i].addr)
  }

  function Stamped(cs: seq<Contact>, now: nat): seq<Contact> {
    seq(|cs|, i requires 0 <= i < |cs| => cs[i].(lastSeen := now))
  }

  function FirstContacts(cs: seq<Contact>): seq<Contact> {
    cs[..Min(|cs|, MAX_CONTACTS)]
  }

  /** The contacts a message takes along: none beside a value, at most 20 otherwise. */
  function Carried(p: RpcPayload): seq<Contact> {
    match p
    case FindNodeResp(cs) => FirstContacts(cs)
    case FindValueResp(None, cs) => FirstContacts(cs)
    case _ => []
  }

  /** The message as it arrives: contacts cut to those carried and stamped on arrival. */
  function AsReceived(m: RpcMessage, now: nat): RpcMessage {
    match m.payload
    case FindNodeResp(cs) => m.(payload := FindNodeResp(Stamped(Carried(m.payload), now)))
    case FindValueResp(v, cs) => m.(payload := FindValueResp(v, Stamped(Carried(m.payload), now)))
    case _ => m
  }

  lemma {:induction false} ContactsSurvive(cs: seq<Contact>, now: nat)
    ensures ContactsFrom(seq(|cs|, i requires 0 <= i < |cs| => ContactToC(cs[i])), now)
            == if AllRoutable(cs) then Ok(Stamped(cs, now)) else Err
  {
    hide CToContact, ContactToC, Routable;
    if cs != [] {
      var all := seq(|cs|, i requires 0 <= i < |cs| => ContactToC(cs[i]));
      ContactsSurvive(cs[1..], now);
      ContactSurvives(cs[0], now);
      assert all[1..] == seq(|cs| - 1, i requires 0 <= i < |cs| - 1 => ContactToC(cs[1..][i]));
      assert AllRoutable(cs) <==> Routable(cs[0].addr) && AllRoutable(cs[1..]) by {
        if Routable(cs[0].addr) && AllRoutable(cs[1..]) {
          assert forall i :: 1 <= i < |cs| ==> cs[i] == cs[1..][i - 1];
        }
      }
      assert Stamped(cs, now) == [cs[0].(lastSeen := now)] + Stamped(cs[1..], now);
      assert all[0] == ContactToC(cs[0]);
    } else {
      assert Stamped(cs, now) == [];
    }
  }

  lemma ArraySurvives(cs: seq<Contact>, now: nat)
    ensures var (n, cells) := ToArray(cs);
            && CutList(n, cells) == (n, cells)
            && ContactsFrom(cells[..Min(Val(n), MAX_CONTACTS)], now)
               == if AllRoutable(FirstContacts(cs)) then Ok(Stamped(FirstContacts(cs), now)) else Err
  {
    hide Byte, ContactToC, AllRoutable, ContactsFrom;
    var n := Min(|cs|, MAX_CONTACTS);
    ByteRoundTrip(n);
    var first := FirstContacts(cs);
    var raw := seq(n, i requires 0 <= i < n => ContactToC(cs[i]));
    assert raw == seq(n, i requires 0 <= i < n => ContactToC(first[i]));
    assert Padded(raw)[..n] == raw;
    ContactsSurvive(first, now);
  }

  /**
   Codec round trip: what `encode` accepts - every message whose value has at most 65536
   bytes - decodes, whatever bytes follow it, to the same message as received, exactly if every
   contact it carries is routable; otherwise it is refused.
   */
  lemma RoundTrip(m: RpcMessage, rest: seq<byte>, now: nat)
    requires Encoded(m).Ok?
    ensures Decoded(Encoded(m).value + rest, now)
            == if AllRoutable(Carried(m.payload)) then Ok(AsReceived(m, now)) else Err
  {
    hide Serialize, Parse, CutList, Padded, ToArray, ContactsFrom, Byte, FirstContacts;
    var c := ToCMessage(m).value;
    EstimateSuffices(m);
    MessageRoundTrip(c, rest);
    match m.payload
    case Store(_, value) =>
      assert value[..|value|] == value;
    case FindNodeResp(cs) =>
      ArraySurvives(cs, now);
    case FindValueResp(None, cs) =>
      ArraySurvives(cs, now);
    case FindValueResp(Some(v), cs) =>
      assert v[..|v|] == v;
      assert Stamped([], now) == [];
    case _ =>
  }

  lemma EncodableExactly(m: RpcMessage)
    ensures Encoded(m).Ok? <==>
              (m.payload.Store? ==> |m.payload.value| <= MAX_VALUE_SIZE)
              && (m.payload.FindValueResp? && m.payload.found.Some? ==> |m.payload.found.value| <= MAX_VALUE_SIZE)
  {
    hide Serialize, ToArray;
  }

  // ----- sending -----

  /** The datagrams of one message. */
  function Datagrams(bytes: seq<byte>, id: MessageId, crc: Checksum): seq<seq<byte>> {
    if |bytes| > CHUNK_THRESHOLD then
      seq(PartCount(bytes), i requires 0 <= i < PartCount(bytes) => ToBytes(ChunkOf(id, bytes, crc, i)))
    else [bytes]
  }

  method SendMessage(m: RpcMessage, id: MessageId, crc: Checksum) returns (sent: Result<seq<seq<byte>>>)
    ensures sent == match Encoded(m) case Err => Err case Ok(bytes) => Ok(Datagrams(bytes, id, crc))
  {
    hide Encoded, ToBytes, ChunkOf;
    var encoded := Encode(m);
    if encoded.Err? {
      return Err;
    }
    var bytes := encoded.value;
    if |bytes| > CHUNK_THRESHOLD {
      var chunks := SplitData(id, bytes, crc);
      var out: seq<seq<byte>> := [];
      for i := 0 to |chunks|
        invariant |out| == i && forall j :: 0 <= j < i ==> out[j] == ToBytes(chunks[j])
      {
        out := out + [ToBytes(chunks[i])];
      }
      assert out == Datagrams(bytes, id, crc);
      return Ok(out);
    }
    return Ok([bytes]);
  }

  /**
   A message of at most 1100 bytes goes out as itself; a larger one as one datagram for each 500
   bytes or part of them, which are its last bytes, after a header of 28.
   */
  lemma DatagramSizes(bytes: seq<byte>, id: MessageId, crc: Checksum)
    ensures var ds := Datagrams(bytes, id, crc);
            && (forall d :: d in ds ==> |d| <= 1100)
            && (|bytes| <= 1100 ==> ds == [bytes])
            && (|bytes| > 1100 ==>
                  && |ds| == (|bytes| + 499) / 500
                  && forall i :: 0 <= i < |ds| ==>
                       && |ds[i]| == 28 + Min(500, |bytes| - 500 * i) <= 528
                       && ds[i][28..] == bytes[500 * i..Min(500 * (i + 1), |bytes|)])
  {
    hide ToBytes;
    if |bytes| > 1100 {
      var ds := Datagrams(bytes, id, crc);
      forall i | 0 <= i < |ds|
        ensures |ds[i]| == 28 + Min(500, |bytes| - 500 * i)
        ensures ds[i][28..] == bytes[500 * i..Min(500 * (i + 1), |bytes|)]
      {
        RawBytesLast(ChunkOf(id, bytes, crc, i));
      }
    }
  }

  lemma RawBytesLast(c: UdpChunk)
    ensures |ToBytes(c)| == 28 + |c.raw| && ToBytes(c)[28..] == c.raw
  {
    hide ToBE;
    ChunkRoundTrip(c);
  }

  // ----- receiving -----

  datatype Incoming = AudioFrame | Message(message: RpcMessage) | Nothing

  datatype Arrival = Arrival(now: nat, src: SocketAddr, datagram: seq<byte>)

  predicate StartsWith(d: seq<byte>, magic: seq<byte>)
    requires |magic| == 4
  {
    |d| >= 4 && d[..4] == magic
  }

  function Interpreted(bytes: seq<byte>, now: nat): Incoming {
    match Decoded(bytes, now)
    case Err => Nothing
    case Ok(m) => Message(m)
  }

  /** One turn of the receive loop up to the decoded message. */
  function Receive(p: Pending, timeout: nat, crc: Checksum, a: Arrival): (Pending, Incoming) {
    if StartsWith(a.datagram, AUDIO_MAGIC) then (p, AudioFrame)
    else if StartsWith(a.datagram, BINARY_MAGIC) then
      match FromBytes(a.datagram)
      case Err => (p, Nothing)
      case Ok(chunk) =>
        var (q, out) := Step(p, timeout, crc, Event(a.now, a.src, chunk));
        (q, match out case None => Nothing case Some(bytes) => Interpreted(bytes, a.now))
    else (p, Interpreted(a.datagram, a.now))
  }

  method HandleDatagram(assembler: ChunkAssembler, crc: Checksum, a: Arrival) returns (r: Incoming)
    modifies assembler
    ensures (assembler.pending, r) == Receive(old(assembler.pending), assembler.reassemblyTimeout, crc, a)
  {
    hide Step, FromBytes, Decoded;
    if StartsWith(a.datagram, AUDIO_MAGIC) {
      return AudioFrame;
    }
    var bytes := a.datagram;
    if StartsWith(a.datagram, BINARY_MAGIC) {
      var chunk := FromBytes(a.datagram);
      if chunk.Err? {
        return Nothing;
      }
      var complete := assembler.AddChunk(crc, a.now, a.src, chunk.value);
      if complete.None? {
        return Nothing;
      }
      bytes := complete.value;
    }
    var m := Decode(bytes, a.now);
    return if m.Err? then Nothing else Message(m.value);
  }

  /**
   "NXCA" marks audio, which is passed on; "NXCK" a chunk, which goes to the assembler, and what that
   puts out is decoded; anything else is decoded as it is. What does not decode is dropped.
   */
  lemma ReceiveExactly(p: Pending, timeout: nat, crc: Checksum, a: Arrival)
    ensures var d := a.datagram;
            var r := Receive(p, timeout, crc, a);
            && (|d| >= 4 && d[..4] == [0x4E, 0x58, 0x43, 0x41] ==> r == (p, AudioFrame))
            && (|d| >= 4 && d[..4] == [0x4E, 0x58, 0x43, 0x4B] && |d| < 28 ==> r == (p, Nothing))
            && (|d| >= 28 && d[..4] == [0x4E, 0x58, 0x43, 0x4B] ==>
                  exists c: UdpChunk :: ToBytes(c) == d
                    && r.0 == Step(p, timeout, crc, Event(a.now, a.src, c)).0
                    && Means(Step(p, timeout, crc, Event(a.now, a.src, c)).1, a.now, r.1))
            && (|d| < 4 || (d[..4] != [0x4E, 0x58, 0x43, 0x41] && d[..4] != [0x4E, 0x58, 0x43, 0x4B]) ==>
                  r.0 == p && Means(Some(d), a.now, r.1))
  {
    hide Step, Decoded, ToBytes;
    if |a.datagram| >= 28 && a.datagram[..4] == BINARY_MAGIC {
      ChunkOfBytes(a.datagram);
    }
  }

  /** The message some bytes decode to, if there are any and they do. */
  ghost predicate Means(bytes: Option<seq<byte>>, now: nat, r: Incoming) {
    match bytes
    case None => r == Nothing
    case Some(b) => r == (match Decoded(b, now) case Err => Nothing case Ok(m) => Message(m))
  }

  /** An encoded message starts with its type byte, so it is taken neither for audio nor for a chunk. */
  lemma DirectIsNoChunk(m: RpcMessage)
    requires Encoded(m).Ok?
    ensures !StartsWith(Encoded(m).value, AUDIO_MAGIC) && !StartsWith(Encoded(m).value, BINARY_MAGIC)
  {
    hide SerializePayload, ToBE, ToArray, Padded;
    var bytes := Encoded(m).value;
    assert bytes[0] == ToCMessage(m).value.msgType;
    assert bytes[0] != 0x4E;
    assert |bytes| >= 4 ==> bytes[..4][0] == bytes[0];
  }

  /** A message that fits into one datagram is received as sent, whatever else is being reassembled. */
  lemma DirectTransparent(m: RpcMessage, p: Pending, timeout: nat, crc: Checksum, id: MessageId, a: Arrival)
    requires Encoded(m).Ok? && |Encoded(m).value| <= 1100 && AllRoutable(Carried(m.payload))
    requires a.datagram in Datagrams(Encoded(m).value, id, crc)
    ensures Receive(p, timeout, crc, a) == (p, Message(AsReceived(m, a.now)))
  {
    hide Encoded, Decoded, AllRoutable, AsReceived;
    DirectIsNoChunk(m);
    RoundTrip(m, [], a.now);
    assert Encoded(m).value + [] == Encoded(m).value;
  }

  /** The chunk arrivals among all arrivals, as the assembler sees them. */
  function ChunkEvents(arrivals: seq<Arrival>): seq<Event> {
    if arrivals == [] then []
    else
      var es, a := ChunkEvents(arrivals[..|arrivals| - 1]), arrivals[|arrivals| - 1];
      if IsChunk(a) then es + [ChunkEvent(a)] else es
  }

  predicate IsChunk(a: Arrival) {
    !StartsWith(a.datagram, AUDIO_MAGIC) && StartsWith(a.datagram, BINARY_MAGIC) && FromBytes(a.datagram).Ok?
  }

  function ChunkEvent(a: Arrival): Event
    requires IsChunk(a)
  {
    Event(a.now, a.src, FromBytes(a.datagram).value)
  }

  function PendingAfter(p: Pending, timeout: nat, crc: Checksum, arrivals: seq<Arrival>): Pending {
    if arrivals == [] then p
    else Receive(PendingAfter(p, timeout, crc, arrivals[..|arrivals| - 1]), timeout, crc, arrivals[|arrivals| - 1]).0
  }

  /** Whatever is not a chunk passes the assembler by. */
  lemma {:induction false} PendingAfterEvents(p: Pending, timeout: nat, crc: Checksum, arrivals: seq<Arrival>)
    ensures PendingAfter(p, timeout, crc, arrivals) == After(p, timeout, crc, ChunkEvents(arrivals))
  {
    hide Step, FromBytes, Interpreted;
    if arrivals != [] {
      var init, a := arrivals[..|arrivals| - 1], arrivals[|arrivals| - 1];
      PendingAfterEvents(p, timeout, crc, init);
      if IsChunk(a) {
        var es := ChunkEvents(arrivals);
        assert es[..|es| - 1] == ChunkEvents(init);
      }
    }
  }

  /**
   The arrivals under `k` are datagrams of this message, the first chunk event is one of them,
   and everything happens within the reassembly timeout.
   */
  ghost predicate ArrivesInTime(arrivals: seq<Arrival>, k: Key, bytes: seq<byte>, timeout: nat, crc: Checksum) {
    var es := ChunkEvents(arrivals);
    && es != [] && KeyOf(es[0]) == k
    && (forall e :: e in es && KeyOf(e) == k ==> ToBytes(e.chunk) in Datagrams(bytes, k.1, crc))
    && (forall e :: e in es ==> es[0].now <= e.now < es[0].now + timeout)
  }

  lemma DatagramIsChunk(bytes: seq<byte>, id: MessageId, crc: Checksum, c: UdpChunk)
    requires |bytes| > CHUNK_THRESHOLD && ToBytes(c) in Datagrams(bytes, id, crc)
    ensures c in Split(id, bytes, crc)
  {
    hide ToBytes, ChunkOf;
    var ds := Datagrams(bytes, id, crc);
    var i :| 0 <= i < |ds| && ds[i] == ToBytes(c);
    ChunkRoundTrip(c);
    ChunkRoundTrip(ChunkOf(id, bytes, crc, i));
    assert Split(id, bytes, crc)[i] == c;
  }

  lemma ArrivesInTimeMeansInTime(arrivals: seq<Arrival>, k: Key, bytes: seq<byte>, timeout: nat, crc: Checksum)
    requires |bytes| > CHUNK_THRESHOLD && ArrivesInTime(arrivals, k, bytes, timeout, crc)
    ensures InTime(ChunkEvents(arrivals), k, bytes, timeout, crc)
  {
    hide ToBytes, ChunkEvents, Split, Datagrams;
    forall e | e in ChunkEvents(arrivals) && KeyOf(e) == k ensures e.chunk in Split(k.1, bytes, crc) {
      DatagramIsChunk(bytes, k.1, crc, e.chunk);
    }
  }

  /**
   Wire transparency for chunked messages. If the first chunk is admitted, and all datagrams of the
   message arrive in time - in any order, repeated, and among any other packets - then the
   arrival that completes them makes the receive loop decode exactly the message sent, and no
   earlier chunk of it makes the loop decode anything.
   */
  lemma ChunkedTransparent(m: RpcMessage, p: Pending, timeout: nat, crc: Checksum, k: Key, arrivals: seq<Arrival>)
    requires Encoded(m).Ok? && |Encoded(m).value| > 1100 && AllRoutable(Carried(m.payload))
    requires ArrivesInTime(arrivals, k, Encoded(m).value, timeout, crc)
    requires arrivals != [] && IsChunk(arrivals[|arrivals| - 1])
    requires var es := ChunkEvents(arrivals);
             && Admitted(p, timeout, es[0].now, k)
             && |Arrived(es[..|es| - 1], k)| < PartCount(Encoded(m).value) == |Arrived(es, k)|
    ensures var last := arrivals[|arrivals| - 1];
            Receive(PendingAfter(p, timeout, crc, arrivals[..|arrivals| - 1]), timeout, crc, last).1
            == Message(AsReceived(m, last.now))
    ensures forall n :: 0 <= n < |arrivals| - 1 && IsChunk(arrivals[n]) && KeyOf(ChunkEvent(arrivals[n])) == k ==>
              Receive(PendingAfter(p, timeout, crc, arrivals[..n]), timeout, crc, arrivals[n]).1 == Nothing
  {
    hide Encoded, Decoded, AllRoutable, AsReceived, ArrivesInTime, Receive, Arrived, Admitted, IsChunk, ChunkEvent,
      ChunkEvents, PendingAfter;
    var bytes := Encoded(m).value;
    LargeIsChunkable(m);
    CompleteOnly(bytes, p, timeout, crc, k, arrivals, |arrivals| - 1);
    RoundTrip(m, [], arrivals[|arrivals| - 1].now);
    assert bytes + [] == bytes;
    forall n | 0 <= n < |arrivals| - 1 && IsChunk(arrivals[n]) && KeyOf(ChunkEvent(arrivals[n])) == k
      ensures Receive(PendingAfter(p, timeout, crc, arrivals[..n]), timeout, crc, arrivals[n]).1 == Nothing
    {
      CompleteOnly(bytes, p, timeout, crc, k, arrivals, n);
    }
  }

  /** What the loop makes of the arrival `n` of a chunk of the message: its bytes, once complete. */
  lemma CompleteOnly(bytes: seq<byte>, p: Pending, timeout: nat, crc: Checksum, k: Key, arrivals: seq<Arrival>, n: nat)
    requires |bytes| > CHUNK_THRESHOLD && Chunkable(bytes) && PartCount(bytes) > 1
    requires ArrivesInTime(arrivals, k, bytes, timeout, crc)
    requires n < |arrivals| && IsChunk(arrivals[|arrivals| - 1]) && IsChunk(arrivals[n])
    requires n == |arrivals| - 1 || KeyOf(ChunkEvent(arrivals[n])) == k
    requires var es := ChunkEvents(arrivals);
             && Admitted(p, timeout, es[0].now, k)
             && |Arrived(es[..|es| - 1], k)| < PartCount(bytes) == |Arrived(es, k)|
    ensures Receive(PendingAfter(p, timeout, crc, arrivals[..n]), timeout, crc, arrivals[n]).1
            == if n == |arrivals| - 1 then Interpreted(bytes, arrivals[n].now) else Nothing
  {
    hide ArrivesInTime, Receive, Arrived, Admitted, IsChunk, ChunkEvent, ChunkEvents, PendingAfter, Chunkable,
      Interpreted, Output;
    var es, j := ChunkEvents(arrivals), |ChunkEvents(arrivals[..n])|;
    ArrivesInTimeMeansInTime(arrivals, k, bytes, timeout, crc);
    NotFirst(es, k, bytes);
    EventPosition(arrivals, n);
    EmittedWhenComplete(p, timeout, crc, es, k, bytes, j);
    ChunkOutput(p, timeout, crc, arrivals, n);
  }

  lemma LargeIsChunkable(m: RpcMessage)
    requires Encoded(m).Ok? && |Encoded(m).value| > CHUNK_THRESHOLD
    ensures Chunkable(Encoded(m).value) && PartCount(Encoded(m).value) > 1
  {
  }

  /** Where the event of arrival `n` stands among all chunk events. */
  lemma {:induction false} EventPosition(arrivals: seq<Arrival>, n: nat)
    requires n < |arrivals| && IsChunk(arrivals[n])
    ensures var j := |ChunkEvents(arrivals[..n])|;
            && j < |ChunkEvents(arrivals)|
            && ChunkEvents(arrivals)[j] == ChunkEvent(arrivals[n])
            && ChunkEvents(arrivals)[..j] == ChunkEvents(arrivals[..n])
            && (n == |arrivals| - 1 ==> j == |ChunkEvents(arrivals)| - 1)
            && (n < |arrivals| - 1 && IsChunk(arrivals[|arrivals| - 1]) ==> j < |ChunkEvents(arrivals)| - 1)
  {
    hide IsChunk, ChunkEvent;
    var init := arrivals[..|arrivals| - 1];
    if n < |arrivals| - 1 {
      EventPosition(init, n);
      assert init[..n] == arrivals[..n];
    }
  }

  /** What the loop makes of a chunk arrival is what the assembler puts out for its event. */
  lemma ChunkOutput(p: Pending, timeout: nat, crc: Checksum, arrivals: seq<Arrival>, n: nat)
    requires n < |arrivals| && IsChunk(arrivals[n])
    ensures var es, j := ChunkEvents(arrivals), |ChunkEvents(arrivals[..n])|;
            && j < |es|
            && Receive(PendingAfter(p, timeout, crc, arrivals[..n]), timeout, crc, arrivals[n]).1
               == match Output(p, timeout, crc, es[..j + 1])
                  case None => Nothing
                  case Some(bytes) => Interpreted(bytes, arrivals[n].now)
  {
    hide Step, FromBytes, Interpreted;
    var es, j := ChunkEvents(arrivals), |ChunkEvents(arrivals[..n])|;
    EventPosition(arrivals, n);
    PendingAfterEvents(p, timeout, crc, arrivals[..n]);
    assert es[..j + 1][..j] == es[..j] && es[..j + 1][j] == es[j];
  }
}
