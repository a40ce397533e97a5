/**
 The binary wire codec of core-ffi/src/lib.rs: `Serialize` and `Parse` say what is on the
 wire; the methods write into and read from buffers with a cursor, as the source does.
 */
module Codec {
  import opened Bytes
  import opened NodeIds
  import opened Contacts

  const MAX_CONTACTS: nat := 20
  const HEADER_SIZE: nat := 29
  const CONTACT_SIZE: nat := 39

  const MSG_PING: byte := 1
  const MSG_PONG: byte := 2
  const MSG_STORE: byte := 3
  const MSG_STORE_ACK: byte := 4
  const MSG_FIND_NODE: byte := 5
  const MSG_FIND_NODE_RESP: byte := 6
  const MSG_FIND_VALUE: byte := 7
  const MSG_FIND_VALUE_RESP: byte := 8

  type u32 = n: int | 0 <= n < 0x1_0000_0000
  type u64 = n: int | 0 <= n < 0x1_0000_0000_0000_0000
  type IpBytes = s: seq<byte> | |s| == 16 witness seq(16, _ => 0)

  datatype CContact = CContact(id: Id, ipType: byte, ip: IpBytes, port: u16)

  const DEFAULT_CONTACT: CContact := CContact(seq(20, _ => 0), 0, seq(16, _ => 0), 0)

  /** `[CSerializedContact; MAX_CONTACTS]`. */
  type ContactArray = s: seq<CContact> | |s| == 20
    witness seq(20, _ => CContact(seq(20, _ => 0), 0, seq(16, _ => 0), 0))

  datatype CPayload =
    | NoPayload
    | CStore(key: Id, valueLen: u32, value: seq<byte>)
    | CStoreAck(status: byte)
    | CFindNode(targetId: Id)
    | CFindNodeResp(count: byte, contacts: ContactArray)
    | CFindValue(valueKey: Id)
    | CFindValueResp(hasValue: byte, len: u32, found: seq<byte>, count: byte, contacts: ContactArray)

  datatype CMessage = CMessage(msgType: byte, requestId: u64, senderId: Id, payload: CPayload)

  // ----- what is on the wire -----

  function SerializeContact(c: CContact): (s: seq<byte>)
    ensures |s| == CONTACT_SIZE
  {
    c.id + [c.ipType] + c.ip + ToBE(c.port, 2)
  }

  function SerializeContacts(cs: seq<CContact>): (s: seq<byte>)
    ensures |s| == CONTACT_SIZE * |cs|
  {
    if cs == [] then [] else SerializeContacts(cs[..|cs| - 1]) + SerializeContact(cs[|cs| - 1])
  }

  function SerializeList(count: byte, contacts: ContactArray): (s: seq<byte>)
    ensures |s| == 1 + Min(Val(count), MAX_CONTACTS) * CONTACT_SIZE
  {
    var n := Min(Val(count), MAX_CONTACTS);
    [Byte(n)] + SerializeContacts(contacts[..n])
  }

  /** The number of value bytes sent: declared length, actual length, limit. */
  function SentLength(len: u32, value: seq<byte>): (n: nat)
    ensures n <= len && n <= |value| && n <= MAX_VALUE_SIZE
  {
    Min(Min(len, |value|), MAX_VALUE_SIZE)
  }

  function SerializeValue(len: u32, value: seq<byte>): (s: seq<byte>)
    ensures |s| == 4 + SentLength(len, value)
  {
    var n := SentLength(len, value);
    ToBE(n, 4) + value[..n]
  }

  function SerializePayload(p: CPayload): seq<byte> {
    match p
    case NoPayload => []
    case CStore(key, len, value) => key + SerializeValue(len, value)
    case CStoreAck(status) => [status]
    case CFindNode(target) => target
    case CFindNodeResp(count, contacts) => SerializeList(count, contacts)
    case CFindValue(key) => key
    case CFindValueResp(has, len, found, count, contacts) =>
      [has] + (if has != 0 then SerializeValue(len, found) else []) + SerializeList(count, contacts)
  }

  function Header(m: CMessage): (s: seq<byte>)
    ensures |s| == HEADER_SIZE
  {
    [m.msgType] + ToBE(m.requestId, 8) + m.senderId
  }

  function Serialize(m: CMessage): seq<byte> {
    Header(m) + SerializePayload(m.payload)
  }

  /** Only a message without payload has to have a matching type. */
  predicate Encodable(m: CMessage) {
    m.payload.NoPayload? ==> m.msgType == MSG_PING || m.msgType == MSG_PONG
  }

  function ParseContact(s: seq<byte>): CContact
    requires |s| == CONTACT_SIZE
  {
    U16(s[37..]);
    CContact(s[..20], s[20], s[21..37], FromBE(s[37..]))
  }

  lemma U16(s: seq<byte>)
    requires |s| == 2
    ensures FromBE(s) < 0x1_0000
  {
    FromBEBound(s);
    Pow256Values();
  }

  lemma U32(s: seq<byte>)
    requires |s| == 4
    ensures FromBE(s) < 0x1_0000_0000
  {
    FromBEBound(s);
    Pow256Values();
  }

  lemma U64(s: seq<byte>)
    requires |s| == 8
    ensures FromBE(s) < 0x1_0000_0000_0000_0000
  {
    FromBEBound(s);
    Pow256Values();
  }

  function Padded(cs: seq<CContact>): ContactArray
    requires |cs| <= MAX_CONTACTS
  {
    cs + seq(MAX_CONTACTS - |cs|, _ => DEFAULT_CONTACT)
  }

  function ParseContacts(s: seq<byte>, n: nat): (cs: seq<CContact>)
    requires CONTACT_SIZE * n <= |s|
    ensures |cs| == n
  {
    seq(n, i requires 0 <= i < n => ParseContact(s[CONTACT_SIZE * i..CONTACT_SIZE * i + CONTACT_SIZE]))
  }

  /** A contact list: a count, cut at the limit, and that many entries. */
  function ParseList(s: seq<byte>): Option<(byte, ContactArray)> {
    if |s| < 1 then None
    else
      var n := Min(Val(s[0]), MAX_CONTACTS);
      if |s| < 1 + n * CONTACT_SIZE then None
      else Some((Byte(n), Padded(ParseContacts(s[1..], n))))
  }

  /** A length-prefixed value and how many bytes it took. */
  function ParseValue(s: seq<byte>): Option<(seq<byte>, nat)> {
    if |s| < 4 then None
    else
      var n := FromBE(s[..4]);
      if n > MAX_VALUE_SIZE || |s| < 4 + n then None
      else Some((s[4..4 + n], 4 + n))
  }

  function ParsePayload(t: byte, s: seq<byte>): Option<CPayload> {
    if t == MSG_PING || t == MSG_PONG then Some(NoPayload)
    else if t == MSG_STORE then
      if |s| < ID_SIZE + 4 then None
      else
        match ParseValue(s[20..])
        case None => None
        case Some((v, _)) => Some(CStore(s[..20], |v|, v))
    else if t == MSG_STORE_ACK then
      if |s| < 1 then None else Some(CStoreAck(s[0]))
    else if t == MSG_FIND_NODE then
      if |s| < ID_SIZE then None else Some(CFindNode(s[..20]))
    else if t == MSG_FIND_NODE_RESP then
      match ParseList(s)
      case None => None
      case Some((n, cs)) => Some(CFindNodeResp(n, cs))
    else if t == MSG_FIND_VALUE then
      if |s| < ID_SIZE then None else Some(CFindValue(s[..20]))
    else if t == MSG_FIND_VALUE_RESP then
      if |s| < 1 then None
      else if s[0] != 0 then
        match ParseValue(s[1..])
        case None => None
        case Some((v, k)) =>
          match ParseList(s[1..][k..])
          case None => None
          case Some((n, cs)) => Some(CFindValueResp(s[0], |v|, v, n, cs))
      else
        match ParseList(s[1..])
        case None => None
        case Some((n, cs)) => Some(CFindValueResp(0, 0, [], n, cs))
    else None
  }

  function Parse(buf: seq<byte>): Option<CMessage> {
    if |buf| < HEADER_SIZE then None
    else
      U64(buf[1..9]);
      match ParsePayload(buf[0], buf[29..])
      case None => None
      case Some(p) => Some(CMessage(buf[0], FromBE(buf[1..9]), buf[9..29], p))
  }

  // ----- encoding into a buffer -----

  /** `out_buf[cursor..cursor + len].copy_from_slice(bytes)`. */
  method WriteAt(out: array<byte>, cursor: nat, bytes: seq<byte>) returns (next: nat)
    requires cursor + |bytes| <= out.Length
    modifies out
    ensures next == cursor + |bytes|
    ensures out[..next] == old(out[..cursor]) + bytes
  {
    for i := 0 to |bytes|
      invariant out[..cursor + i] == old(out[..cursor]) + bytes[..i]
    {
      out[cursor + i] := bytes[i];
    }
    next := cursor + |bytes|;
  }

  lemma NoContacts(contacts: seq<CContact>)
    ensures SerializeContacts(contacts[..0]) == []
  {
  }

  lemma NextContact(contacts: seq<CContact>, i: nat)
    requires i < |contacts|
    ensures SerializeContacts(contacts[..i + 1]) == SerializeContacts(contacts[..i]) + SerializeContact(contacts[i])
  {
    assert contacts[..i + 1][..i] == contacts[..i];
  }

  method WriteContact(out: array<byte>, start: nat, c: CContact) returns (cursor: nat)
    requires start + CONTACT_SIZE <= out.Length
    modifies out
    ensures cursor == start + CONTACT_SIZE
    ensures out[..cursor] == old(out[..start]) + SerializeContact(c)
  {
    hide ToBE;
    cursor := WriteAt(out, start, c.id);
    cursor := WriteAt(out, cursor, [c.ipType]);
    cursor := WriteAt(out, cursor, c.ip);
    cursor := WriteAt(out, cursor, ToBE(c.port, 2));
  }

  method WriteContacts(out: array<byte>, start: nat, count: nat, contacts: ContactArray) returns (cursor: nat)
    requires count <= MAX_CONTACTS
    requires start + 1 + count * CONTACT_SIZE <= out.Length
    modifies out
    ensures cursor == start + 1 + count * CONTACT_SIZE
    ensures out[..cursor] == old(out[..start]) + [Byte(count)] + SerializeContacts(contacts[..count])
  {
    hide Byte, SerializeContact, SerializeContacts;
    cursor := WriteAt(out, start, [Byte(count)]);
    NoContacts(contacts);
    ghost var before := out[..cursor];
    for i := 0 to count
      invariant cursor == start + 1 + i * CONTACT_SIZE
      invariant out[..cursor] == before + SerializeContacts(contacts[..i])
    {
      cursor := WriteContact(out, cursor, contacts[i]);
      NextContact(contacts, i);
    }
  }

  method WriteValue(out: array<byte>, start: nat, len: u32, value: seq<byte>) returns (cursor: nat)
    requires start + 4 + SentLength(len, value) <= out.Length
    modifies out
    ensures cursor == start + 4 + SentLength(len, value)
    ensures out[..cursor] == old(out[..start]) + SerializeValue(len, value)
  {
    hide ToBE;
    var vlen := SentLength(len, value);
    cursor := WriteAt(out, start, ToBE(vlen, 4));
    cursor := WriteAt(out, cursor, value[..vlen]);
  }

  /** The payload part of `ffi_encode_message`; it fails only if the buffer is too short. */
  method WritePayload(out: array<byte>, start: nat, p: CPayload) returns (ok: bool, cursor: nat)
    requires start <= out.Length
    modifies out
    ensures ok == (start + |SerializePayload(p)| <= out.Length)
    ensures ok ==> cursor == start + |SerializePayload(p)| && out[..cursor] == old(out[..start]) + SerializePayload(p)
  {
    hide SerializeList, SerializeValue, SentLength, Val;
    cursor := start;
    match p {
      case NoPayload =>
      case CStore(key, len, value) =>
        var vlen := SentLength(len, value);
        if out.Length < cursor + ID_SIZE + 4 + vlen {
          return false, cursor;
        }
        cursor := WriteAt(out, cursor, key);
        cursor := WriteValue(out, cursor, len, value);
      case CStoreAck(status) =>
        if out.Length < cursor + 1 {
          return false, cursor;
        }
        cursor := WriteAt(out, cursor, [status]);
      case CFindNode(target) =>
        if out.Length < cursor + ID_SIZE {
          return false, cursor;
        }
        cursor := WriteAt(out, cursor, target);
      case CFindNodeResp(c, contacts) =>
        ok, cursor := WriteList(out, cursor, c, contacts);
        return;
      case CFindValue(key) =>
        if out.Length < cursor + ID_SIZE {
          return false, cursor;
        }
        cursor := WriteAt(out, cursor, key);
      case CFindValueResp(has, len, found, c, contacts) =>
        ok, cursor := WriteValueResp(out, start, has, len, found, c, contacts);
        return;
    }
    ok := true;
  }

  method WriteValueResp(out: array<byte>, start: nat, has: byte, len: u32, found: seq<byte>, c: byte,
                        contacts: ContactArray)
    returns (ok: bool, cursor: nat)
    requires start <= out.Length
    modifies out
    ensures var s := SerializePayload(CFindValueResp(has, len, found, c, contacts));
            && ok == (start + |s| <= out.Length)
            && (ok ==> cursor == start + |s| && out[..cursor] == old(out[..start]) + s)
  {
    hide SerializeList, SerializeValue, SentLength, Val;
    if out.Length < start + 1 {
      return false, start;
    }
    ghost var head := out[..start];
    ghost var v := if has != 0 then SerializeValue(len, found) else [];
    cursor := WriteAt(out, start, [has]);
    if has != 0 {
      var vlen := SentLength(len, found);
      if out.Length < cursor + 4 + vlen {
        return false, cursor;
      }
      cursor := WriteValue(out, cursor, len, found);
    } else {
      assert head + [has] == head + [has] + v;
    }
    assert out[..cursor] == head + [has] + v;
    ok, cursor := WriteList(out, cursor, c, contacts);
    ThreeParts(head, [has], v, SerializeList(c, contacts));
  }

  lemma ThreeParts(head: seq<byte>, a: seq<byte>, b: seq<byte>, c: seq<byte>)
    ensures head + a + b + c == head + (a + b + c)
  {
  }

  method WriteList(out: array<byte>, start: nat, c: byte, contacts: ContactArray) returns (ok: bool, cursor: nat)
    requires start <= out.Length
    modifies out
    ensures ok == (start + |SerializeList(c, contacts)| <= out.Length)
    ensures ok ==> cursor == start + |SerializeList(c, contacts)|
                   && out[..cursor] == old(out[..start]) + SerializeList(c, contacts)
  {
    hide Byte, SerializeContacts;
    var count := Min(Val(c), MAX_CONTACTS);
    if out.Length < start + 1 + count * CONTACT_SIZE {
      return false, start;
    }
    cursor := WriteContacts(out, start, count, contacts);
    ok := true;
  }

  /**
   `ffi_encode_message`: the bytes written are the serialized message; the only failures are
   a buffer that is too short and a missing payload.
   */
  method EncodeMessage(msg: CMessage, out: array<byte>) returns (written: int)
    modifies out
    ensures written == if Encodable(msg) && |Serialize(msg)| <= out.Length then |Serialize(msg)| else -1
    ensures written >= 0 ==> out[..written] == Serialize(msg)
  {
    hide ToBE, SerializePayload;
    if out.Length < HEADER_SIZE {
      return -1;
    }
    var cursor := WriteAt(out, 0, [msg.msgType]);
    cursor := WriteAt(out, cursor, ToBE(msg.requestId, 8));
    cursor := WriteAt(out, cursor, msg.senderId);
    assert out[..cursor] == Header(msg);
    if msg.payload.NoPayload? && msg.msgType != MSG_PING && msg.msgType != MSG_PONG {
      return -1;
    }
    var ok;
    ok, cursor := WritePayload(out, cursor, msg.payload);
    return if ok then cursor else -1;
  }

  // ----- decoding from a buffer -----

  method ReadContacts(buf: seq<byte>, start: nat, count: nat) returns (contacts: ContactArray)
    requires count <= MAX_CONTACTS && start + count * CONTACT_SIZE <= |buf|
    ensures contacts == Padded(ParseContacts(buf[start..], count))
  {
    contacts := seq(MAX_CONTACTS, _ => DEFAULT_CONTACT);
    var cursor := start;
    for i := 0 to count
      invariant cursor == start + i * CONTACT_SIZE
      invariant contacts == Padded(ParseContacts(buf[start..], i))
    {
      var id := buf[cursor..cursor + 20];
      cursor := cursor + ID_SIZE;
      var ipType := buf[cursor];
      cursor := cursor + 1;
      var ip := buf[cursor..cursor + 16];
      cursor := cursor + 16;
      var portBytes := buf[cursor..cursor + 2];
      U16(portBytes);
      cursor := cursor + 2;
      var c := CContact(id, ipType, ip, FromBE(portBytes));
      EntryFields(buf, start, start + i * CONTACT_SIZE, i);
      contacts := contacts[i := c];
    }
  }

  lemma EntryFields(buf: seq<byte>, start: nat, at: nat, i: nat)
    requires at == start + CONTACT_SIZE * i && at + CONTACT_SIZE <= |buf|
    ensures var s := buf[start..][CONTACT_SIZE * i..CONTACT_SIZE * i + CONTACT_SIZE];
            && s[..20] == buf[at..at + 20] && s[20] == buf[at + 20]
            && s[21..37] == buf[at + 21..at + 37] && s[37..] == buf[at + 37..at + 39]
  {
    var s := buf[start..][CONTACT_SIZE * i..CONTACT_SIZE * i + CONTACT_SIZE];
    assert s == buf[at..at + CONTACT_SIZE];
    assert s[..20] == buf[at..at + 20];
    assert s[21..37] == buf[at + 21..at + 37];
    assert s[37..] == buf[at + 37..at + 39];
  }

  /** `ffi_decode_message`: reads within bounds on every input, and reads what `Parse` says. */
  method DecodeMessage(buf: seq<byte>) returns (r: Option<CMessage>)
    ensures r == Parse(buf)
  {
    hide FromBE, ParseContacts, Padded, Byte;
    var cursor := 0;
    if |buf| < HEADER_SIZE {
      return None;
    }
    var msgType := buf[cursor];
    cursor := cursor + 1;
    U64(buf[1..9]);
    var requestId := FromBE(buf[cursor..cursor + 8]);
    cursor := cursor + 8;
    var senderId := buf[cursor..cursor + 20];
    cursor := cursor + ID_SIZE;
    var payload := DecodePayload(msgType, buf, cursor);
    if payload.None? {
      return None;
    }
    return Some(CMessage(msgType, requestId, senderId, payload.value));
  }

  method DecodePayload(t: byte, buf: seq<byte>, start: nat) returns (r: Option<CPayload>)
    requires start <= |buf|
    ensures r == ParsePayload(t, buf[start..])
  {
    hide FromBE, ParseContacts, Padded, Byte;
    var cursor := start;
    ghost var s := buf[start..];
    assert |s| >= ID_SIZE ==> s[..20] == buf[start..start + 20];
    if t == MSG_PING || t == MSG_PONG {
      return Some(NoPayload);
    } else if t == MSG_STORE {
      if |buf| < cursor + ID_SIZE + 4 {
        return None;
      }
      var key := buf[cursor..cursor + 20];
      cursor := cursor + ID_SIZE;
      assert s[20..] == buf[cursor..];
      var value := ReadValue(buf, cursor);
      if value.None? {
        return None;
      }
      return Some(CStore(key, |value.value.0|, value.value.0));
    } else if t == MSG_STORE_ACK {
      if |buf| < cursor + 1 {
        return None;
      }
      return Some(CStoreAck(buf[cursor]));
    } else if t == MSG_FIND_NODE {
      if |buf| < cursor + ID_SIZE {
        return None;
      }
      return Some(CFindNode(buf[cursor..cursor + 20]));
    } else if t == MSG_FIND_NODE_RESP {
      var list := ReadList(buf, cursor);
      if list.None? {
        return None;
      }
      return Some(CFindNodeResp(list.value.0, list.value.1));
    } else if t == MSG_FIND_VALUE {
      if |buf| < cursor + ID_SIZE {
        return None;
      }
      return Some(CFindValue(buf[cursor..cursor + 20]));
    } else if t == MSG_FIND_VALUE_RESP {
      if |buf| < cursor + 1 {
        return None;
      }
      var has := buf[cursor];
      cursor := cursor + 1;
      assert s[1..] == buf[cursor..];
      var len, found := 0, [];
      if has != 0 {
        var value := ReadValue(buf, cursor);
        if value.None? {
          return None;
        }
        assert s[1..][value.value.1..] == buf[cursor + value.value.1..];
        found := value.value.0;
        len := |found|;
        cursor := cursor + value.value.1;
      }
      var list := ReadList(buf, cursor);
      if list.None? {
        return None;
      }
      return Some(CFindValueResp(has, len, found, list.value.0, list.value.1));
    }
    return None;
  }

  method ReadValue(buf: seq<byte>, start: nat) returns (r: Option<(seq<byte>, nat)>)
    requires start <= |buf|
    ensures r == ParseValue(buf[start..])
  {
    hide FromBE;
    if |buf| < start + 4 {
      return None;
    }
    assert buf[start..][..4] == buf[start..start + 4];
    var vlen := FromBE(buf[start..start + 4]);
    var cursor := start + 4;
    if vlen > MAX_VALUE_SIZE || |buf| < cursor + vlen {
      return None;
    }
    assert buf[start..][4..4 + vlen] == buf[cursor..cursor + vlen];
    return Some((buf[cursor..cursor + vlen], 4 + vlen));
  }

  method ReadList(buf: seq<byte>, start: nat) returns (r: Option<(byte, ContactArray)>)
    requires start <= |buf|
    ensures r == ParseList(buf[start..])
  {
    hide ParseContacts, Padded, Byte;
    if |buf| < start + 1 {
      return None;
    }
    var count := Min(Val(buf[start]), MAX_CONTACTS);
    var cursor := start + 1;
    if |buf| < cursor + count * CONTACT_SIZE {
      return None;
    }
    assert buf[start..][1..] == buf[cursor..];
    var contacts := ReadContacts(buf, cursor, count);
    return Some((Byte(count), contacts));
  }

  // ----- decode after encode -----

  lemma ContactRoundTrip(c: CContact)
    ensures ParseContact(SerializeContact(c)) == c
  {
    hide FromBE, ToBE;
    var s := SerializeContact(c);
    assert s[..20] == c.id && s[20] == c.ipType && s[21..37] == c.ip && s[37..] == ToBE(c.port, 2);
    Pow256Values();
    BERoundTrip(c.port, 2);
  }

  lemma {:induction false} ContactAt(cs: seq<CContact>, i: nat)
    requires i < |cs|
    ensures SerializeContacts(cs)[CONTACT_SIZE * i..CONTACT_SIZE * i + CONTACT_SIZE] == SerializeContact(cs[i])
  {
    hide SerializeContact;
    var n := |cs| - 1;
    var init := SerializeContacts(cs[..n]);
    if i < n {
      ContactAt(cs[..n], i);
      assert SerializeContacts(cs)[..|init|] == init;
      assert SerializeContacts(cs)[CONTACT_SIZE * i..CONTACT_SIZE * i + CONTACT_SIZE]
          == init[CONTACT_SIZE * i..CONTACT_SIZE * i + CONTACT_SIZE];
    } else {
      assert SerializeContacts(cs)[|init|..] == SerializeContact(cs[n]);
    }
  }

  lemma ContactsRoundTrip(cs: seq<CContact>, rest: seq<byte>)
    ensures ParseContacts(SerializeContacts(cs) + rest, |cs|) == cs
  {
    hide SerializeContact, ParseContact, SerializeContacts;
    var s := SerializeContacts(cs) + rest;
    forall i | 0 <= i < |cs| ensures ParseContact(s[CONTACT_SIZE * i..CONTACT_SIZE * i + CONTACT_SIZE]) == cs[i] {
      ContactAt(cs, i);
      ContactRoundTrip(cs[i]);
      assert s[CONTACT_SIZE * i..CONTACT_SIZE * i + CONTACT_SIZE]
          == SerializeContacts(cs)[CONTACT_SIZE * i..CONTACT_SIZE * i + CONTACT_SIZE];
    }
  }

  /** What survives of a list: at most 20 entries; the rest of the array is blank. */
  function CutList(count: byte, contacts: ContactArray): (byte, ContactArray) {
    var n := Min(Val(count), MAX_CONTACTS);
    (Byte(n), Padded(contacts[..n]))
  }

  lemma ListRoundTrip(count: byte, contacts: ContactArray, rest: seq<byte>)
    ensures ParseList(SerializeList(count, contacts) + rest) == Some(CutList(count, contacts))
  {
    hide ParseContacts, SerializeContacts, Byte;
    var n := Min(Val(count), MAX_CONTACTS);
    var s := SerializeList(count, contacts) + rest;
    ByteRoundTrip(n);
    assert s[0] == Byte(n);
    assert s[1..] == SerializeContacts(contacts[..n]) + rest;
    ContactsRoundTrip(contacts[..n], rest);
  }

  lemma ValueRoundTrip(len: u32, value: seq<byte>, rest: seq<byte>)
    ensures var n := SentLength(len, value);
            ParseValue(SerializeValue(len, value) + rest) == Some((value[..n], 4 + n))
  {
    hide FromBE, ToBE;
    var n := SentLength(len, value);
    var s := SerializeValue(len, value) + rest;
    Pow256Values();
    BERoundTrip(n, 4);
    assert s[..4] == ToBE(n, 4) && s[4..4 + n] == value[..n];
  }

  /** What the receiver sees of a payload: values cut to what was sent, lists to 20 entries. */
  function Received(p: CPayload): CPayload {
    match p
    case CStore(key, len, value) => CStore(key, SentLength(len, value), value[..SentLength(len, value)])
    case CFindNodeResp(count, contacts) =>
      CFindNodeResp(CutList(count, contacts).0, CutList(count, contacts).1)
    case CFindValueResp(has, len, found, count, contacts) =>
      var n := if has != 0 then SentLength(len, found) else 0;
      CFindValueResp(has, n, if has != 0 then found[..n] else [],
                     CutList(count, contacts).0, CutList(count, contacts).1)
    case _ => p
  }

  function TypeOf(p: CPayload): byte {
    match p
    case NoPayload => MSG_PING
    case CStore(_, _, _) => MSG_STORE
    case CStoreAck(_) => MSG_STORE_ACK
    case CFindNode(_) => MSG_FIND_NODE
    case CFindNodeResp(_, _) => MSG_FIND_NODE_RESP
    case CFindValue(_) => MSG_FIND_VALUE
    case CFindValueResp(_, _, _, _, _) => MSG_FIND_VALUE_RESP
  }

  lemma PayloadRoundTrip(p: CPayload, rest: seq<byte>)
    ensures ParsePayload(TypeOf(p), SerializePayload(p) + rest) == Some(Received(p))
  {
    hide ParseList, SerializeList, ParseValue, SerializeValue, CutList, SentLength;
    var s := SerializePayload(p) + rest;
    match p
    case NoPayload =>
    case CStore(key, len, value) =>
      ValueRoundTrip(len, value, rest);
      assert s[..20] == key && s[20..] == SerializeValue(len, value) + rest;
    case CStoreAck(status) =>
      assert s[0] == status;
    case CFindNode(target) =>
      assert s[..20] == target;
    case CFindNodeResp(count, contacts) =>
      ListRoundTrip(count, contacts, rest);
    case CFindValue(key) =>
      assert s[..20] == key;
    case CFindValueResp(has, len, found, count, contacts) =>
      ValueRespRoundTrip(has, len, found, count, contacts, rest);
  }

  lemma ValueRespRoundTrip(has: byte, len: u32, found: seq<byte>, count: byte, contacts: ContactArray, rest: seq<byte>)
    ensures var p := CFindValueResp(has, len, found, count, contacts);
            ParsePayload(MSG_FIND_VALUE_RESP, SerializePayload(p) + rest) == Some(Received(p))
  {
    hide ParseList, SerializeList, ParseValue, SerializeValue, CutList, SentLength;
    var list := SerializeList(count, contacts);
    ListRoundTrip(count, contacts, rest);
    if has != 0 {
      var v := SerializeValue(len, found);
      ValueRoundTrip(len, found, list + rest);
      Regroup(has, v, list, rest);
    } else {
      Regroup(has, [], list, rest);
    }
  }

  lemma Regroup(b: byte, v: seq<byte>, list: seq<byte>, rest: seq<byte>)
    ensures var s := [b] + v + list + rest;
            s[0] == b && s[1..] == v + (list + rest) && s[1..][|v|..] == list + rest
  {
  }

  /** The type byte fits the payload. */
  predicate Matching(m: CMessage) {
    m.msgType == TypeOf(m.payload) || (m.payload.NoPayload? && m.msgType == MSG_PONG)
  }

  /** Decoding what was encoded, whatever bytes follow it, gives the message back. */
  lemma MessageRoundTrip(m: CMessage, rest: seq<byte>)
    requires Matching(m)
    ensures Parse(Serialize(m) + rest) == Some(m.(payload := Received(m.payload)))
  {
    hide FromBE, ToBE, SerializePayload, Received;
    var s := Serialize(m) + rest;
    assert s[0] == m.msgType && s[1..9] == ToBE(m.requestId, 8) && s[9..29] == m.senderId;
    assert s[29..] == SerializePayload(m.payload) + rest;
    Pow256Values();
    BERoundTrip(m.requestId, 8);
    PayloadRoundTrip(m.payload, rest);
    PongIsPing(SerializePayload(m.payload) + rest);
  }

  lemma PongIsPing(s: seq<byte>)
    ensures ParsePayload(MSG_PONG, s) == ParsePayload(MSG_PING, s)
  {
  }
}
