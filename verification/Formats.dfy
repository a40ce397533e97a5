/**
 The formats byte by byte, with the numbers written out: messages on the wire
 (core-ffi/src/lib.rs, nodex-kademlia/src/rpc.rs), chunks (chunking.rs), carriers
 (nodex-messenger/src/stego.rs), ids in print and the state file (node.rs, state.rs).
 */
module Formats {
  import opened Bytes
  import opened NodeIds
  import opened Contacts
  import opened Codec
  import Rpc
  import opened Chunking
  import Stego
  import Hex
  import StateFile

  // ----- messages -----

  /** Type, request id and sender id, then the payload. */
  lemma HeaderLayout(m: CMessage)
    ensures var s := Serialize(m);
            && |s| >= 29 && s[0] == m.msgType && FromBE(s[1..9]) == m.requestId && s[9..29] == m.senderId
            && s[29..] == SerializePayload(m.payload)
  {
    hide ToBE, FromBE, SerializePayload;
    Pow256Values();
    BERoundTrip(m.requestId, 8);
    var s := Serialize(m);
    assert s[1..9] == ToBE(m.requestId, 8);
    assert s[9..29] == m.senderId && s[29..] == SerializePayload(m.payload);
  }

  /** A value: its length in four bytes, then the bytes, as many as declared, there, and allowed. */
  ghost predicate IsValue(s: seq<byte>, len: u32, value: seq<byte>) {
    var n := Min(Min(len, |value|), 65536);
    |s| == 4 + n && FromBE(s[..4]) == n && s[4..] == value[..n]
  }

  /** A contact: id, kind of address, sixteen address bytes, port. */
  ghost predicate IsContact(s: seq<byte>, c: CContact) {
    |s| == 39 && s[..20] == c.id && s[20] == c.ipType && s[21..37] == c.ip && FromBE(s[37..39]) == c.port
  }

  /** A list: how many contacts, at most 20, then one after the other. */
  ghost predicate IsList(s: seq<byte>, count: byte, contacts: ContactArray) {
    var n := Min(Val(count), 20);
    && |s| == 1 + 39 * n && Val(s[0]) == n
    && forall i :: 0 <= i < n ==> IsContact(s[1 + 39 * i..40 + 39 * i], contacts[i])
  }

  lemma ValueLayout(len: u32, value: seq<byte>)
    ensures IsValue(SerializeValue(len, value), len, value)
  {
    hide ToBE, FromBE;
    Pow256Values();
    var n := SentLength(len, value);
    BERoundTrip(n, 4);
    assert SerializeValue(len, value)[..4] == ToBE(n, 4);
  }

  lemma ContactLayout(c: CContact)
    ensures IsContact(SerializeContact(c), c)
  {
    hide ToBE, FromBE;
    Pow256Values();
    BERoundTrip(c.port, 2);
    var s := SerializeContact(c);
    assert s[..20] == c.id && s[21..37] == c.ip && s[37..39] == ToBE(c.port, 2);
  }

  lemma {:induction false} ContactsLayout(cs: seq<CContact>, i: nat)
    requires i < |cs|
    ensures IsContact(SerializeContacts(cs)[39 * i..39 * i + 39], cs[i])
  {
    hide SerializeContact, IsContact;
    var init, last := cs[..|cs| - 1], cs[|cs| - 1];
    ContactLayout(last);
    var s, before := SerializeContacts(cs), SerializeContacts(init);
    if i < |init| {
      ContactsLayout(init, i);
      assert s[39 * i..39 * i + 39] == before[39 * i..39 * i + 39];
    } else {
      assert s[39 * i..39 * i + 39] == SerializeContact(last);
    }
  }

  lemma ListLayout(count: byte, contacts: ContactArray)
    ensures IsList(SerializeList(count, contacts), count, contacts)
  {
    hide SerializeContacts, IsContact, Byte;
    var n := Min(Val(count), 20);
    ByteRoundTrip(n);
    var s := SerializeList(count, contacts);
    forall i | 0 <= i < n ensures IsContact(s[1 + 39 * i..40 + 39 * i], contacts[i]) {
      ContactsLayout(contacts[..n], i);
      assert s[1 + 39 * i..40 + 39 * i] == SerializeContacts(contacts[..n])[39 * i..39 * i + 39];
    }
  }

  lemma PayloadLayout(p: CPayload)
    ensures var s := SerializePayload(p);
            match p
            case NoPayload => s == []
            case CStore(key, len, value) => |s| >= 20 && s[..20] == key && IsValue(s[20..], len, value)
            case CStoreAck(status) => s == [status]
            case CFindNode(target) => s == target
            case CFindNodeResp(count, contacts) => IsList(s, count, contacts)
            case CFindValue(key) => s == key
            case CFindValueResp(has, len, found, count, contacts) =>
              && |s| >= 1 && s[0] == has
              && (has == 0 ==> IsList(s[1..], count, contacts))
              && (has != 0 ==>
                    exists k :: 1 <= k <= |s| && IsValue(s[1..k], len, found) && IsList(s[k..], count, contacts))
  {
    hide SerializeValue, SerializeList, IsValue, IsList;
    match p
    case CStore(key, len, value) =>
      ValueLayout(len, value);
      assert SerializePayload(p)[20..] == SerializeValue(len, value);
    case CFindNodeResp(count, contacts) => ListLayout(count, contacts);
    case CFindValueResp(has, len, found, count, contacts) =>
      ListLayout(count, contacts);
      ValueLayout(len, found);
      var s, value, list := SerializePayload(p), SerializeValue(len, found), SerializeList(count, contacts);
      if has != 0 {
        assert s == [has] + value + list;
        assert s[1..1 + |value|] == value && s[1 + |value|..] == list;
      } else {
        assert s == [has] + list && s[1..] == list;
      }
    case _ =>
  }

  /** The number of each kind of message, what it carries, and how addresses are written. */
  lemma MessageNumbers(m: Rpc.RpcMessage)
    requires Rpc.ToCMessage(m).Ok?
    ensures var c := Rpc.ToCMessage(m).value;
            && c.requestId == m.requestId && c.senderId == m.senderId
            && match m.payload
               case Ping => c.msgType == 1 && c.payload == NoPayload
               case Pong => c.msgType == 2 && c.payload == NoPayload
               case Store(key, value) => c.msgType == 3 && c.payload == CStore(key, |value|, value)
               case StoreAck(ok) => c.msgType == 4 && c.payload == CStoreAck(if ok then 0 else 1)
               case FindNode(target) => c.msgType == 5 && c.payload == CFindNode(target)
               case FindNodeResp(cs) => c.msgType == 6 && c.payload.CFindNodeResp? && Lists(cs, c.payload.contacts)
               case FindValue(key) => c.msgType == 7 && c.payload == CFindValue(key)
               case FindValueResp(Some(v), _) =>
                 c.msgType == 8 && c.payload.CFindValueResp? && c.payload.hasValue == 1 && c.payload.count == 0
                 && c.payload.len == |v| && c.payload.found == v
               case FindValueResp(None, cs) =>
                 c.msgType == 8 && c.payload.CFindValueResp? && c.payload.hasValue == 0
                 && Lists(cs, c.payload.contacts)
    ensures m.payload.FindNodeResp? ==> Val(Rpc.ToCMessage(m).value.payload.count) == Min(|m.payload.contacts|, 20)
  {
    hide Byte;
    match m.payload
    case FindNodeResp(cs) => ByteRoundTrip(Min(|cs|, 20));
    case _ =>
  }

  /** The first 20 contacts, an IPv4 address as kind 4 in the first four bytes, an IPv6 one as kind 6. */
  ghost predicate Lists(cs: seq<Contact>, cells: ContactArray) {
    forall i :: 0 <= i < Min(|cs|, 20) ==>
      && cells[i].id == cs[i].id && cells[i].port == cs[i].addr.port
      && match cs[i].addr.ip
         case V4(o) => cells[i].ipType == 4 && cells[i].ip == o + seq(12, _ => 0)
         case V6(o) => cells[i].ipType == 6 && cells[i].ip == o
  }

  /** The list read, if any, was no longer than 20, so it was not cut. */
  ghost predicate Uncut(p: CPayload, s: seq<byte>) {
    match p
    case CFindNodeResp(_, _) => s != [] && Val(s[0]) <= 20
    case CFindValueResp(has, len, _, _, _) =>
      var at := if has == 0 then 1 else 5 + len;
      |s| > at && Val(s[at]) <= 20
    case _ => true
  }

  /** The decoder accepts nothing but encodings: what it reads, encoded again, is what stood in the buffer. */
  lemma DecodedIsEncoding(buf: seq<byte>)
    requires Parse(buf).Some? && |buf| >= 29 && Uncut(Parse(buf).value.payload, buf[29..])
    ensures Serialize(Parse(buf).value) <= buf
    ensures Parse(buf).value.payload.CStore? ==> |Parse(buf).value.payload.value| <= 65536
  {
    hide ToBE, FromBE, SerializePayload, ParsePayload, Uncut;
    var m := Parse(buf).value;
    ToBEOfFromBE(buf[1..9]);
    PayloadIsEncoding(buf[0], buf[29..], m.payload);
    var s, p := Serialize(m), SerializePayload(m.payload);
    assert buf == [buf[0]] + buf[1..9] + buf[9..29] + buf[29..];
    assert buf[29..] == p + buf[29..][|p|..];
    assert s == [buf[0]] + buf[1..9] + buf[9..29] + p;
    assert buf == s + buf[29..][|p|..];
  }

  lemma PayloadIsEncoding(t: byte, s: seq<byte>, p: CPayload)
    requires ParsePayload(t, s) == Some(p) && Uncut(p, s)
    ensures SerializePayload(p) <= s
    ensures p.CStore? ==> |p.value| <= 65536
  {
    hide ToBE, FromBE, SerializeValue, SerializeList, ParseValue, ParseList;
    match p
    case CStore(key, len, value) =>
      ValueIsEncoding(s[20..]);
      assert s == s[..20] + s[20..];
    case CFindNodeResp(count, contacts) => ListIsEncoding(s);
    case CFindValueResp(has, len, found, count, contacts) => FoundIsEncoding(s, p);
    case _ =>
  }

  lemma FoundIsEncoding(s: seq<byte>, p: CPayload)
    requires ParsePayload(8, s) == Some(p) && Uncut(p, s) && p.CFindValueResp?
    ensures SerializePayload(p) <= s
  {
    hide ToBE, FromBE, SerializeValue, SerializeList, ParseValue, ParseList;
    var rest := s[1..];
    assert s == [s[0]] + rest;
    if s[0] != 0 {
      ValueIsEncoding(rest);
      var k := ParseValue(rest).value.1;
      ListIsEncoding(rest[k..]);
      Prefixes(s[0], rest[..k], SerializeList(p.count, p.contacts), rest[k..]);
      assert rest == rest[..k] + rest[k..];
    } else {
      ListIsEncoding(rest);
    }
  }

  lemma Prefixes(b: byte, v: seq<byte>, l: seq<byte>, rest: seq<byte>)
    requires l <= rest
    ensures [b] + v + l <= [b] + (v + rest)
  {
  }

  lemma ValueIsEncoding(s: seq<byte>)
    requires ParseValue(s).Some?
    ensures var (v, k) := ParseValue(s).value;
            && |v| <= 65536 && k == 4 + |v| && k <= |s| && SerializeValue(|v|, v) == s[..k]
  {
    hide ToBE, FromBE;
    ToBEOfFromBE(s[..4]);
    var (v, k) := ParseValue(s).value;
    assert v[..|v|] == v && s[..k] == s[..4] + s[4..k];
  }

  lemma ContactIsEncoding(s: seq<byte>)
    requires |s| == 39
    ensures SerializeContact(ParseContact(s)) == s
  {
    hide ToBE, FromBE;
    ToBEOfFromBE(s[37..]);
    assert s == s[..20] + [s[20]] + s[21..37] + s[37..];
  }

  lemma {:induction false} ContactsAreEncoding(s: seq<byte>, n: nat)
    requires 39 * n <= |s|
    ensures SerializeContacts(ParseContacts(s, n)) == s[..39 * n]
  {
    hide ParseContact, SerializeContact;
    if n > 0 {
      var cs := ParseContacts(s, n);
      ContactsAreEncoding(s, n - 1);
      assert cs[..n - 1] == ParseContacts(s, n - 1);
      ContactIsEncoding(s[39 * (n - 1)..39 * (n - 1) + 39]);
      assert s[..39 * n] == s[..39 * (n - 1)] + s[39 * (n - 1)..39 * n];
    }
  }

  lemma ListIsEncoding(s: seq<byte>)
    requires ParseList(s).Some? && |s| > 0 && Val(s[0]) <= 20
    ensures var (n, cs) := ParseList(s).value;
            SerializeList(n, cs) <= s
  {
    hide ParseContacts, SerializeContacts, Byte;
    var n := Val(s[0]);
    ByteRoundTrip(n);
    ValRoundTrip(s[0]);
    ContactsAreEncoding(s[1..], n);
    var (b, cs) := ParseList(s).value;
    assert cs[..n] == ParseContacts(s[1..], n);
    assert s == [s[0]] + s[1..][..39 * n] + s[1..][39 * n..];
  }

  // ----- chunks -----

  /** "NXCK", message id, index, count, checksum, then the bytes. */
  lemma ChunkLayout(c: UdpChunk)
    ensures var s := ToBytes(c);
            && |s| == 28 + |c.raw| && s[..4] == [0x4E, 0x58, 0x43, 0x4B] && s[4..20] == c.messageId
            && FromBE(s[20..22]) == c.chunkIndex && FromBE(s[22..24]) == c.chunkCount
            && FromBE(s[24..28]) == c.checksum && s[28..] == c.raw
  {
    hide FromBE, ToBE;
    ChunkRoundTrip(c);
    var s := ToBytes(c);
    Pow256Values();
    BERoundTrip(c.chunkIndex, 2);
    BERoundTrip(c.chunkCount, 2);
    BERoundTrip(c.checksum, 4);
    assert s[4..20] == c.messageId && s[20..22] == ToBE(c.chunkIndex, 2) && s[22..24] == ToBE(c.chunkCount, 2);
    assert s[24..28] == ToBE(c.checksum, 4) && s[28..] == c.raw;
  }

  // ----- carriers -----

  /**
   Bit by bit, the most significant first, in red, green and blue, pixel after pixel: the lowest bit
   of the channel is the bit of the payload.
   */
  lemma CarrierLayout(pixels: seq<byte>, payload: seq<byte>, k: nat)
    requires k < 8 * |payload| && 4 * (k / 3) + k % 3 < |pixels|
    ensures var r := Stego.Stamped(pixels, payload, 8 * |payload|);
            var mask: seq<byte> := [0x80, 0x40, 0x20, 0x10, 8, 4, 2, 1];
            r[4 * (k / 3) + k % 3] & 1 == 1 <==> payload[k / 8] & mask[k % 8] != 0
  {
    hide Stego.SetLsb, Stego.BitOf, Stego.Lsb, Stego.Slot, Stego.BitAt;
    Stego.SlotUnique(Stego.Slot(k), k);
    SlotIs(k);
    var i, bit := Stego.Slot(k), Stego.PayloadBit(payload, k);
    Stego.SetLsbMeaning(pixels[i], bit);
    LsbIs(Stego.SetLsb(pixels[i], bit));
    BitIsSet(payload[k / 8], k % 8);
  }

  lemma SlotIs(k: nat)
    ensures Stego.Slot(k) == 4 * (k / 3) + k % 3
  {
  }

  lemma LsbIs(b: byte)
    ensures Stego.Lsb(b) == b & 1
  {
  }

  lemma BitIsSet(b: byte, j: nat)
    requires j < 8
    ensures var mask: seq<byte> := [0x80, 0x40, 0x20, 0x10, 8, 4, 2, 1];
            Stego.BitOf(b, j) == 1 <==> b & mask[j] != 0
  {
  }

  /** "NXSTG1", length, salt, nonce, ciphertext, checksum of all that. */
  lemma PacketLayout(crypto: Stego.Crypto, salt: seq<byte>, nonce: seq<byte>, ciphertext: seq<byte>)
    requires |salt| == 32 && |nonce| == 12 && crypto.Lawful()
    ensures var s := Stego.Packet(crypto, salt, nonce, ciphertext);
            var n := |s| - 4;
            && n == 54 + |ciphertext| && s[..6] == [0x4E, 0x58, 0x53, 0x54, 0x47, 0x31]
            && FromBE(s[6..10]) == |ciphertext| % 0x1_0000_0000 && s[10..42] == salt && s[42..54] == nonce
            && s[54..n] == ciphertext && FromBE(s[n..]) == crypto.crc(s[..n])
  {
    hide ToBE, FromBE, Stego.Body, Pow256;
    Stego.BodyParts(salt, nonce, ciphertext);
    var body := Stego.Body(salt, nonce, ciphertext);
    var s := Stego.Packet(crypto, salt, nonce, ciphertext);
    Pow256Values();
    BERoundTrip(|ciphertext| % 0x1_0000_0000, 4);
    BERoundTrip(crypto.crc(body), 4);
    assert s[..|s| - 4] == body && s[..6] == body[..6] && s[6..10] == body[6..10];
    assert s[10..42] == body[10..42] && s[42..54] == body[42..54] && s[54..|s| - 4] == body[54..];
  }

  /** Why a picture yields nothing, in the order of the checks, and what it yields otherwise. */
  lemma ExtractExactly(crypto: Stego.Crypto, passphrase: Option<string>, pixels: seq<byte>)
    ensures var head := Stego.Hidden(pixels, 10);
            var len := FromBE(head[6..]);
            var r := Stego.ExtractFrom(crypto, passphrase, pixels);
            if head[..6] != [0x4E, 0x58, 0x53, 0x54, 0x47, 0x31] then r == Stego.NoSignature
            else if len > 1000000 then r == Stego.BadLength
            else if 8 * (58 + len) > 3 * (|pixels| / 4) then r == Stego.ExceedsCapacity
            else
              var s := Stego.Hidden(pixels, 58 + len);
              if FromBE(s[54 + len..]) != crypto.crc(s[..54 + len]) then r == Stego.ChecksumMismatch
              else match crypto.decrypt(crypto.deriveKey(passphrase, s[10..42]), s[42..54], s[54..54 + len])
                   case None => r == Stego.DecryptionFailed
                   case Some(plain) => r == Stego.Extracted(plain)
  {
    hide FromBE, Stego.HiddenPrefix;
  }

  // ----- ids in print -----

  function HexDigit(c: char): nat {
    if '0' <= c <= '9' then c as nat - '0' as nat
    else if 'a' <= c <= 'f' then c as nat - 'a' as nat + 10 else 0
  }

  /** The number a text of lower-case hexadecimal digits stands for. */
  function HexNumber(s: string): nat {
    if s == "" then 0 else 16 * HexNumber(s[..|s| - 1]) + HexDigit(s[|s| - 1])
  }

  /** An id is printed as the number its bytes denote, in two digits a byte. */
  lemma {:induction false} PrintedNumber(s: seq<byte>)
    ensures |Hex.ToHex(s)| == 2 * |s| && HexNumber(Hex.ToHex(s)) == FromBE(s)
  {
    if s != [] {
      var init, last := s[..|s| - 1], s[|s| - 1];
      assert s == init + [last];
      PrintedNumber(init);
      ToHexLast(init, last);
      ByteNumber(last);
      var t, head := Hex.ToHex(s), Hex.ToHex(init);
      assert t[..|t| - 1] == head + [Hex.ByteHex(last)[0]] && t[..|t| - 1][..|t| - 2] == head;
    }
  }

  lemma {:induction false} ToHexLast(s: seq<byte>, b: byte)
    ensures Hex.ToHex(s + [b]) == Hex.ToHex(s) + Hex.ByteHex(b)
  {
    if s == [] {
      assert s + [b] == [b];
    } else {
      assert (s + [b])[1..] == s[1..] + [b];
      ToHexLast(s[1..], b);
    }
  }

  lemma ByteNumber(b: byte)
    ensures var t := Hex.ByteHex(b); 16 * HexDigit(t[0]) + HexDigit(t[1]) == Val(b)
  {
    DigitNumber(Val(b) / 16);
    DigitNumber(Val(b) % 16);
  }

  lemma DigitNumber(n: nat)
    requires n < 16
    ensures HexDigit(Hex.Digit(n)) == n
  {
  }

  // ----- the state file -----

  /** Every contact is written as an object of two strings. */
  lemma EntryText(t: StateFile.AddressText, c: Contact)
    ensures StateFile.Entry(t, c)
         == "{\"id\": \"" + Hex.ToHex(c.id) + ("\", \"addr\": \"" + t.show(c.addr) + "\"}")
  {
    hide Hex.ToHex;
    FieldText("id", Hex.ToHex(c.id));
    assert StateFile.Quoted("addr") == "\"addr\":";
  }

  lemma FieldText(key: string, value: string)
    ensures StateFile.Field(key, value) == "\"" + key + "\": \"" + value + "\""
  {
  }

  /** What a node without contacts writes. */
  lemma EmptyStateText(t: StateFile.AddressText, id: Id)
    ensures var before, behind := "{\n  \"node_id\": \"", "\",\n  \"contacts\": [\n    \n  ]\n}";
            StateFile.Print(t, id, []) == before + Hex.ToHex(id) + behind
  {
    var hex, key := Hex.ToHex(id), StateFile.Quoted("contacts");
    FieldText("node_id", hex);
    NoEntries(t);
    NodeKey();
    ContactsKey();
    hide *;
    PrintPieces(t, id, []);
    Pieces("{\n  ", "\"node_id\": \"", hex, "\"", ",\n  ", key, " [\n    ", "", "\n  ]\n}");
  }

  lemma NoEntries(t: StateFile.AddressText)
    ensures StateFile.Joined(t, []) == ""
  {
  }

  lemma NodeKey()
    ensures "{\n  " + "\"node_id\": \"" == "{\n  \"node_id\": \"" && "\"" + "node_id" + "\": \"" == "\"node_id\": \""
  {
  }

  lemma ContactsKey()
    ensures "\"" + ",\n  " + StateFile.Quoted("contacts") + " [\n    " + "" + "\n  ]\n}"
         == "\",\n  \"contacts\": [\n    \n  ]\n}"
  {
  }

  lemma PrintPieces(t: StateFile.AddressText, id: Id, cs: seq<Contact>)
    ensures StateFile.Print(t, id, cs)
         == "{\n  " + StateFile.Field("node_id", Hex.ToHex(id)) + ",\n  " + StateFile.Quoted("contacts") + " [\n    "
            + StateFile.Joined(t, cs) + "\n  ]\n}"
  {
  }

  lemma Pieces(a: string, b: string, h: string, c: string, d: string, e: string, f: string, g: string, i: string)
    ensures a + (b + h + c) + d + e + f + g + i == (a + b) + h + (c + d + e + f + g + i)
  {
  }
}
