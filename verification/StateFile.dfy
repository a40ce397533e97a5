/**
 The state file a node keeps between runs (nodex-kademlia/src/state.rs): a hand-written
 printer and a hand-written parser of the text it prints. The text form of a socket address
 is abstract.
 */
module StateFile {
  import opened Bytes
  import opened Contacts
  import opened Hex
  import opened NodeIds
  import opened Sequences

  datatype AddressText = AddressText(show: SocketAddr -> string, parse: string -> Option<SocketAddr>)
  {
    /** Addresses are printed in few characters; an IPv6 address stands in square brackets. */
    ghost predicate Lawful() {
      forall a :: parse(show(a)) == Some(a)
        && (forall c :: c in show(a) ==> c in "0123456789abcdef.:[]")
        && (']' in show(a) <==> a.ip.V6?)
    }
  }

  // ----- the printer -----

  function Quoted(key: string): string {
    "\"" + key + "\":"
  }

  function Field(key: string, value: string): string {
    Quoted(key) + " \"" + value + "\""
  }

  /** An entry up to the address. */
  function EntryHead(hex: string): string {
    "{" + Field("id", hex) + ", " + Quoted("addr") + " \""
  }

  function Entry(t: AddressText, c: Contact): string {
    EntryHead(ToHex(c.id)) + t.show(c.addr) + "\"" + "}"
  }

  function Joined(t: AddressText, cs: seq<Contact>): string {
    if cs == [] then "" else if |cs| == 1 then Entry(t, cs[0]) else Entry(t, cs[0]) + ",\n    " + Joined(t, cs[1..])
  }

  /** `save_state`. */
  function Print(t: AddressText, id: Id, cs: seq<Contact>): string {
    "{\n  " + Field("node_id", ToHex(id)) + ",\n  " + Quoted("contacts") + " [\n    " + Joined(t, cs) + "\n  ]\n}"
  }

  // ----- the parser -----

  /** What follows the first occurrence of a pattern. */
  function After(s: string, pattern: string): Option<string>
    decreases |s|
  {
    if |s| < |pattern| then None
    else if s[..|pattern|] == pattern then Some(s[|pattern|..])
    else if s == "" then None
    else After(s[1..], pattern)
  }

  /** Position of the first such character, or the length. */
  function Position(s: string, c: char): (i: nat)
    ensures i <= |s|
    ensures i < |s| ==> s[i] == c
    ensures c !in s[..i]
  {
    First(s, (d: char) => d == c)
  }

  function GetString(json: string, key: string): Option<string> {
    match After(json, Quoted(key))
    case None => None
    case Some(rest) =>
      var q1 := Position(rest, '"');
      if q1 == |rest| then None
      else
        var value := rest[q1 + 1..];
        var q2 := Position(value, '"');
        if q2 == |value| then None else Some(value[..q2])
  }

  type Pair = (string, string)

  function BlockPairs(block: string): seq<Pair> {
    var id, addr := GetString(block, "id"), GetString(block, "addr");
    if id.Some? && addr.Some? then [(id.value, addr.value)] else []
  }

  /** The pairs of the blocks between closing braces. */
  function Pairs(inner: string): seq<Pair>
    decreases |inner|
  {
    var k := Position(inner, '}');
    if k == |inner| then BlockPairs(inner) else BlockPairs(inner[..k]) + Pairs(inner[k + 1..])
  }

  /** `WrongOrder`: the slice between the brackets is taken even so, and panics. */
  datatype ContactsArray = Missing | WrongOrder | Found(pairs: seq<Pair>)

  function GetContactsArray(json: string): ContactsArray {
    match After(json, Quoted("contacts"))
    case None => Missing
    case Some(rest) =>
      var b1, b2 := Position(rest, '['), Position(rest, ']');
      if b1 == |rest| || b2 == |rest| then Missing
      else if b2 < b1 then WrongOrder
      else Found(Pairs(rest[b1 + 1..b2]))
  }

  /** The contacts of those pairs that parse; `None` if reading an id panics. */
  function ContactsFrom(t: AddressText, ps: seq<Pair>, now: nat): Option<seq<Contact>> {
    if ps == [] then Some([])
    else
      var (idHex, addrStr) := ps[|ps| - 1];
      match (ContactsFrom(t, ps[..|ps| - 1], now), ParseId(idHex), t.parse(addrStr))
      case (None, _, _) => None
      case (_, Panics, _) => None
      case (Some(cs), Parsed(id), Some(addr)) => Some(cs + [Contact(id, addr, now)])
      case (Some(cs), _, _) => Some(cs)
  }

  datatype Loaded = Loaded(id: Id, contacts: seq<Contact>) | MissingId | InvalidId | Crashed

  function Load(t: AddressText, content: string, now: nat): Loaded {
    match GetString(content, "node_id")
    case None => MissingId
    case Some(hex) =>
      match ParseId(hex)
      case Panics => Crashed
      case Invalid => InvalidId
      case Parsed(id) =>
        match GetContactsArray(content)
        case WrongOrder => Crashed
        case Missing => Loaded(id, [])
        case Found(pairs) =>
          match ContactsFrom(t, pairs, now)
          case None => Crashed
          case Some(cs) => Loaded(id, cs)
  }

  method JsonGetContactsArray(json: string) returns (r: ContactsArray)
    ensures r == GetContactsArray(json)
  {
    hide After, BlockPairs;
    var found := After(json, Quoted("contacts"));
    if found.None? {
      return Missing;
    }
    var rest := found.value;
    var b1, b2 := Position(rest, '['), Position(rest, ']');
    if b1 == |rest| || b2 == |rest| {
      return Missing;
    }
    if b2 < b1 {
      return WrongOrder;
    }
    var inner := rest[b1 + 1..b2];
    var results: seq<Pair>, left := [], inner;
    while true
      invariant results + Pairs(left) == Pairs(inner)
      decreases |left|
    {
      var k := Position(left, '}');
      results := results + BlockPairs(left[..k]);
      if k == |left| {
        assert left[..k] == left;
        break;
      }
      left := left[k + 1..];
    }
    return Found(results);
  }

  method LoadState(t: AddressText, content: string, now: nat) returns (r: Loaded)
    ensures r == Load(t, content, now)
  {
    hide GetString, GetContactsArray, ParseId;
    var nodeIdHex := GetString(content, "node_id");
    if nodeIdHex.None? {
      return MissingId;
    }
    var nodeId := FromHex(nodeIdHex.value);
    if nodeId.Panics? {
      return Crashed;
    }
    if nodeId.Invalid? {
      return InvalidId;
    }
    var contacts: seq<Contact> := [];
    var entries := JsonGetContactsArray(content);
    if entries.WrongOrder? {
      return Crashed;
    }
    if entries.Found? {
      for i := 0 to |entries.pairs|
        invariant ContactsFrom(t, entries.pairs[..i], now) == Some(contacts)
      {
        assert entries.pairs[..i + 1][..i] == entries.pairs[..i];
        var (idHex, addrStr) := entries.pairs[i];
        var id := FromHex(idHex);
        if id.Panics? {
          PanicStays(t, entries.pairs, i + 1, now);
          return Crashed;
        }
        var addr := t.parse(addrStr);
        if id.Parsed? && addr.Some? {
          contacts := contacts + [Contact(id.bytes, addr.value, now)];
        }
      }
      assert entries.pairs[..|entries.pairs|] == entries.pairs;
    }
    return Loaded(nodeId.bytes, contacts);
  }

  lemma {:induction false} PanicStays(t: AddressText, ps: seq<Pair>, n: nat, now: nat)
    requires n <= |ps| && ContactsFrom(t, ps[..n], now) == None
    ensures ContactsFrom(t, ps, now) == None
  {
    hide ParseId;
    if n == |ps| {
      assert ps[..n] == ps;
    } else {
      assert ps[..|ps| - 1][..n] == ps[..n];
      PanicStays(t, ps[..|ps| - 1], n, now);
    }
  }

  // ----- searching printed text -----

  lemma {:induction false} PositionAt(a: string, c: char, b: string)
    requires c !in a
    ensures Position(a + [c] + b, c) == |a|
  {
    if a != "" {
      assert (a + [c] + b)[1..] == a[1..] + [c] + b;
      assert a[0] in a;
      PositionAt(a[1..], c, b);
    }
  }

  lemma PositionNone(a: string, c: char)
    requires c !in a
    ensures Position(a, c) == |a|
  {
  }

  lemma AfterMiss(s: string, p: string, i: nat)
    requires i < |p| && s != "" && (i < |s| ==> s[i] != p[i])
    ensures After(s, p) == After(s[1..], p)
  {
  }

  /** Text without quotes cannot begin a match. */
  lemma {:induction false} AfterSkip(a: string, b: string, key: string)
    requires '"' !in a
    ensures After(a + b, Quoted(key)) == After(b, Quoted(key))
  {
    if a == "" {
      assert a + b == b;
    } else {
      assert (a + b)[1..] == a[1..] + b;
      assert a[0] in a;
      AfterMiss(a + b, Quoted(key), 0);
      AfterSkip(a[1..], b, key);
    }
  }

  function Mismatch(w: string, key: string): (i: nat)
    ensures i <= |w| && i <= |key|
    ensures i < |w| && i < |key| ==> w[i] != key[i]
    ensures i == |w| == |key| ==> w == key
  {
    if w == "" || key == "" || w[0] != key[0] then 0 else 1 + Mismatch(w[1..], key[1..])
  }

  /** A quoted word that is not the key, or not followed by a colon, is not a match. */
  lemma AfterWord(w: string, tail: string, key: string)
    requires '"' !in w && '"' !in key
    requires w != key || tail == "" || tail[0] != ':'
    ensures After("\"" + w + "\"" + tail, Quoted(key)) == After("\"" + tail, Quoted(key))
  {
    hide After;
    var s, p, m := "\"" + w + "\"" + tail, Quoted(key), Mismatch(w, key);
    if m < |w| {
      assert s[m + 1] == w[m] && w[m] in w;
    }
    if m < |key| {
      assert p[m + 1] == key[m] && key[m] in key;
    }
    AfterMiss(s, p, if m == |w| == |key| then m + 2 else m + 1);
    assert s[1..] == w + ("\"" + tail);
    AfterSkip(w, "\"" + tail, key);
  }

  lemma AfterHit(key: string, tail: string)
    ensures After(Quoted(key) + tail, Quoted(key)) == Some(tail)
  {
  }

  /** After one whole field and a separator, the next key is found. */
  lemma AfterSecond(before: string, k1: string, v1: string, sep: string, k2: string, tail: string)
    requires forall w :: w in {before, k1, v1, sep, k2} ==> '"' !in w
    requires k2 !in {k1, ": ", v1, sep}
    ensures After(before + Field(k1, v1) + sep + Quoted(k2) + tail, Quoted(k2)) == Some(tail)
  {
    hide After;
    var t3 := k2 + "\":" + tail;
    var t2 := sep + "\"" + t3;
    var t1 := v1 + "\"" + t2;
    var t0 := ": \"" + t1;
    var json := before + Field(k1, v1) + sep + Quoted(k2) + tail;
    assert json == before + ("\"" + k1 + "\"" + t0);
    AfterSkip(before, "\"" + k1 + "\"" + t0, k2);
    AfterWord(k1, t0, k2);
    assert "\"" + t0 == "\"" + ": " + "\"" + t1;
    AfterWord(": ", t1, k2);
    assert "\"" + t1 == "\"" + v1 + "\"" + t2;
    AfterWord(v1, t2, k2);
    assert "\"" + t2 == "\"" + sep + "\"" + t3;
    AfterWord(sep, t3, k2);
    assert "\"" + t3 == Quoted(k2) + tail;
    AfterHit(k2, tail);
  }

  lemma AfterFirst(before: string, key: string, tail: string)
    requires '"' !in before
    ensures After(before + Quoted(key) + tail, Quoted(key)) == Some(tail)
  {
    hide After;
    assert before + Quoted(key) + tail == before + (Quoted(key) + tail);
    AfterSkip(before, Quoted(key) + tail, key);
    AfterHit(key, tail);
  }

  lemma StringAfter(json: string, key: string, value: string, tail: string)
    requires After(json, Quoted(key)) == Some(" \"" + value + "\"" + tail) && '"' !in value
    ensures GetString(json, key) == Some(value)
  {
    hide After, Position;
    var rest := " \"" + value + "\"" + tail;
    assert rest == " " + ['"'] + (value + "\"" + tail);
    PositionAt(" ", '"', value + "\"" + tail);
    assert rest[2..] == value + ['"'] + tail;
    PositionAt(value, '"', tail);
    assert rest[2..][..|value|] == value;
  }

  // ----- blocks -----

  lemma PlainBlock(block: string)
    requires '"' !in block
    ensures BlockPairs(block) == []
  {
    assert block + "" == block;
    AfterSkip(block, "", "id");
  }

  lemma EntryBlock(sep: string, hex: string, addr: string)
    requires '"' !in sep && '"' !in hex && '"' !in addr && |hex| == 40
    ensures BlockPairs(sep + EntryHead(hex) + addr + "\"") == [(hex, addr)]
  {
    hide After, GetString;
    var block := sep + EntryHead(hex) + addr + "\"";
    var more := ", " + Quoted("addr") + (" \"" + addr + "\"" + "");
    assert block == (sep + "{") + Quoted("id") + (" \"" + hex + "\"" + more);
    AfterFirst(sep + "{", "id", " \"" + hex + "\"" + more);
    StringAfter(block, "id", hex, more);
    assert block == (sep + "{") + Field("id", hex) + ", " + Quoted("addr") + (" \"" + addr + "\"" + "");
    AfterSecond(sep + "{", "id", hex, ", ", "addr", " \"" + addr + "\"" + "");
    StringAfter(block, "addr", addr, "");
  }

  /** An address cut off before its closing quote is not found. */
  lemma CutBlock(sep: string, hex: string, cut: string)
    requires '"' !in sep && '"' !in hex && '"' !in cut && |hex| == 40
    ensures BlockPairs(sep + EntryHead(hex) + cut) == []
  {
    hide After, Position;
    var block := sep + EntryHead(hex) + cut;
    var rest := " \"" + cut;
    assert block == (sep + "{") + Field("id", hex) + ", " + Quoted("addr") + rest;
    AfterSecond(sep + "{", "id", hex, ", ", "addr", rest);
    assert rest == " " + ['"'] + cut;
    PositionAt(" ", '"', cut);
    assert rest[2..] == cut;
    PositionNone(cut, '"');
  }

  // ----- the contacts -----

  function Upto(s: string, c: char): string {
    s[..Position(s, c)]
  }

  lemma {:induction false} UptoSkip(a: string, b: string, c: char)
    requires c !in a
    ensures Upto(a + b, c) == a + Upto(b, c)
    ensures Position(a + b, c) == |a| + Position(b, c)
  {
    if a == "" {
      assert a + b == b;
    } else {
      assert (a + b)[1..] == a[1..] + b && a[0] in a;
      UptoSkip(a[1..], b, c);
    }
  }

  lemma UptoWithin(a: string, b: string, c: char)
    requires c in a
    ensures Upto(a + b, c) == Upto(a, c) && Position(a, c) < |a|
    ensures forall x :: x in Upto(a, c) ==> x in a
  {
    var k := Position(a, c);
    assert a[..|a|] == a;
    assert a + b == a[..k] + [c] + (a[k + 1..] + b);
    PositionAt(a[..k], c, a[k + 1..] + b);
  }

  /** The rest of the file from the contacts on. */
  function Tail(t: AddressText, cs: seq<Contact>): string {
    Joined(t, cs) + "\n  ]\n}"
  }

  /** The contacts before the first with an IPv6 address. */
  function BeforeV6(cs: seq<Contact>): (r: seq<Contact>)
    ensures r <= cs
    ensures |r| < |cs| ==> cs[|r|].addr.ip.V6?
    ensures forall c :: c in r ==> c.addr.ip.V4?
  {
    if cs == [] || cs[0].addr.ip.V6? then [] else [cs[0]] + BeforeV6(cs[1..])
  }

  function PairOf(t: AddressText, c: Contact): Pair {
    (ToHex(c.id), t.show(c.addr))
  }

  function PairsOf(t: AddressText, cs: seq<Contact>): seq<Pair> {
    if cs == [] then [] else [PairOf(t, cs[0])] + PairsOf(t, cs[1..])
  }

  lemma PairsStep(block: string, rest: string)
    requires '}' !in block
    ensures Pairs(block + "}" + rest) == BlockPairs(block) + Pairs(rest)
  {
    hide BlockPairs;
    var s := block + "}" + rest;
    PositionAt(block, '}', rest);
    assert s[..|block|] == block && s[|block| + 1..] == rest;
  }

  lemma PairsLast(block: string)
    requires '}' !in block
    ensures Pairs(block) == BlockPairs(block)
  {
  }

  ghost predicate Clean(s: string) {
    '"' !in s && '}' !in s && ']' !in s
  }

  lemma TextsAreClean(t: AddressText, c: Contact)
    requires t.Lawful()
    ensures Clean(ToHex(c.id)) && '"' !in t.show(c.addr) && '}' !in t.show(c.addr)
    ensures c.addr.ip.V4? ==> Clean(t.show(c.addr))
  {
    hide ToHex;
    HexCharacters(c.id);
  }

  lemma HeadIsClean(hex: string)
    requires Clean(hex)
    ensures '}' !in EntryHead(hex) && ']' !in EntryHead(hex)
  {
  }

  lemma EndOfList(t: AddressText, sep: string)
    requires Clean(sep)
    ensures Pairs(sep + Upto(Tail(t, []), ']')) == []
  {
    hide Pairs, BlockPairs, Position;
    assert Tail(t, []) == "\n  " + [']'] + "\n}";
    PositionAt("\n  ", ']', "\n}");
    assert Upto(Tail(t, []), ']') == "\n  ";
    PairsLast(sep + "\n  ");
    PlainBlock(sep + "\n  ");
  }

  lemma FirstIsV6(t: AddressText, sep: string, cs: seq<Contact>)
    requires t.Lawful() && Clean(sep) && cs != [] && cs[0].addr.ip.V6?
    ensures Pairs(sep + Upto(Tail(t, cs), ']')) == []
  {
    hide Pairs, BlockPairs, Position, ToHex, Upto, EntryHead;
    var hex, addr := ToHex(cs[0].id), t.show(cs[0].addr);
    TextsAreClean(t, cs[0]);
    HeadIsClean(hex);
    var head, more := EntryHead(hex), Tail(t, cs)[|EntryHead(hex) + addr|..];
    assert Tail(t, cs) == head + (addr + more);
    UptoSkip(head, addr + more, ']');
    UptoWithin(addr, more, ']');
    var cut := Upto(addr, ']');
    assert sep + (head + cut) == sep + head + cut;
    PairsLast(sep + head + cut);
    CutBlock(sep, hex, cut);
  }

  lemma TailStep(t: AddressText, cs: seq<Contact>)
    requires cs != []
    ensures var next := if |cs| == 1 then "" else ",\n    ";
            Tail(t, cs) == (EntryHead(ToHex(cs[0].id)) + t.show(cs[0].addr) + "\"" + "}") + (next + Tail(t, cs[1..]))
  {
    hide EntryHead, ToHex;
  }

  lemma BodyIsClean(t: AddressText, c: Contact)
    requires t.Lawful() && c.addr.ip.V4?
    ensures var hex, addr := ToHex(c.id), t.show(c.addr);
            var body := EntryHead(hex) + addr + "\"";
            '}' !in body && ']' !in body + "}" && '"' !in hex && '"' !in addr && |hex| == 40
  {
    TextsAreClean(t, c);
    HeadIsClean(ToHex(c.id));
    hide EntryHead, ToHex, AddressText.Lawful;
  }

  /** A first contact with an IPv4 address is read, and the reading goes on after it. */
  lemma FirstIsV4(t: AddressText, sep: string, cs: seq<Contact>)
    requires t.Lawful() && Clean(sep) && cs != [] && cs[0].addr.ip.V4?
    ensures var next := if |cs| == 1 then "" else ",\n    ";
            Pairs(sep + Upto(Tail(t, cs), ']')) == [PairOf(t, cs[0])] + Pairs(next + Upto(Tail(t, cs[1..]), ']'))
  {
    var hex, addr := ToHex(cs[0].id), t.show(cs[0].addr);
    var next, more := if |cs| == 1 then "" else ",\n    ", Tail(t, cs[1..]);
    BodyIsClean(t, cs[0]);
    TailStep(t, cs);
    assert PairOf(t, cs[0]) == (hex, addr);
    assert ']' !in next && '}' !in sep && '"' !in sep;
    hide *;
    UptoSkip(next, more, ']');
    EntryInList(sep, hex, addr, next + more);
  }

  lemma EntryInList(sep: string, hex: string, addr: string, more: string)
    requires '"' !in sep && '}' !in sep && '"' !in hex && '"' !in addr && |hex| == 40
    requires '}' !in EntryHead(hex) + addr + "\"" && ']' !in EntryHead(hex) + addr + "\"" + "}"
    ensures Pairs(sep + Upto(EntryHead(hex) + addr + "\"" + "}" + more, ']'))
         == [(hex, addr)] + Pairs(Upto(more, ']'))
  {
    hide *;
    var body := EntryHead(hex) + addr + "\"";
    UptoSkip(body + "}", more, ']');
    PairsStep(sep + body, Upto(more, ']'));
    assert sep + (body + "}" + Upto(more, ']')) == (sep + body) + "}" + Upto(more, ']');
    EntryBlock(sep, hex, addr);
    assert sep + body == sep + EntryHead(hex) + addr + "\"";
  }

  lemma {:induction false} PairsInTail(t: AddressText, sep: string, cs: seq<Contact>)
    requires t.Lawful() && Clean(sep)
    ensures Pairs(sep + Upto(Tail(t, cs), ']')) == PairsOf(t, BeforeV6(cs))
    decreases |cs|
  {
    hide Pairs, Tail, Upto, AddressText.Lawful;
    if cs == [] {
      EndOfList(t, sep);
    } else if cs[0].addr.ip.V6? {
      FirstIsV6(t, sep, cs);
    } else {
      FirstIsV4(t, sep, cs);
      PairsInTail(t, if |cs| == 1 then "" else ",\n    ", cs[1..]);
    }
  }

  // ----- round trips -----

  function Refreshed(cs: seq<Contact>, now: nat): (r: seq<Contact>)
    ensures |r| == |cs| && forall i :: 0 <= i < |cs| ==> r[i] == cs[i].(lastSeen := now)
  {
    seq(|cs|, i requires 0 <= i < |cs| => cs[i].(lastSeen := now))
  }

  lemma {:induction false} PairsOfAppend(t: AddressText, cs: seq<Contact>, c: Contact)
    ensures PairsOf(t, cs + [c]) == PairsOf(t, cs) + [PairOf(t, c)]
  {
    if cs == [] {
      assert cs + [c] == [c];
    } else {
      assert (cs + [c])[1..] == cs[1..] + [c];
      PairsOfAppend(t, cs[1..], c);
    }
  }

  lemma {:induction false} ContactsOfPairs(t: AddressText, cs: seq<Contact>, now: nat)
    requires t.Lawful()
    ensures ContactsFrom(t, PairsOf(t, cs), now) == Some(Refreshed(cs, now))
  {
    hide ParseId, ToHex;
    if cs != [] {
      var init, last := cs[..|cs| - 1], cs[|cs| - 1];
      assert cs == init + [last];
      PairsOfAppend(t, init, last);
      var ps := PairsOf(t, cs);
      assert ps[..|ps| - 1] == PairsOf(t, init);
      ContactsOfPairs(t, init, now);
      HexRoundTrip(last.id);
      assert ps[|ps| - 1] == (ToHex(last.id), t.show(last.addr)) && t.parse(t.show(last.addr)) == Some(last.addr);
      assert Refreshed(cs, now) == Refreshed(init, now) + [Contact(last.id, last.addr, now)];
    }
  }

  lemma PrintedId(t: AddressText, id: Id, cs: seq<Contact>)
    ensures GetString(Print(t, id, cs), "node_id") == Some(ToHex(id))
  {
    hide After, GetString, Joined, ToHex;
    HexCharacters(id);
    var more := ",\n  " + Quoted("contacts") + " [\n    " + Tail(t, cs);
    var rest := " \"" + ToHex(id) + "\"" + more;
    assert Print(t, id, cs) == "{\n  " + Quoted("node_id") + rest;
    AfterFirst("{\n  ", "node_id", rest);
    StringAfter(Print(t, id, cs), "node_id", ToHex(id), more);
  }

  lemma PrintedContacts(t: AddressText, id: Id, cs: seq<Contact>)
    requires t.Lawful()
    ensures GetContactsArray(Print(t, id, cs)) == Found(PairsOf(t, BeforeV6(cs)))
  {
    hide After, Joined, ToHex, Position, Pairs, PairsOf, BeforeV6, Upto, Field, Quoted, AddressText.Lawful;
    HexCharacters(id);
    var tail := Tail(t, cs);
    var rest := " [\n    " + tail;
    assert Print(t, id, cs) == "{\n  " + Field("node_id", ToHex(id)) + ",\n  " + Quoted("contacts") + rest;
    AfterSecond("{\n  ", "node_id", ToHex(id), ",\n  ", "contacts", rest);
    assert tail[|tail| - 3] == ']';
    BracketsIn(tail);
    PairsInTail(t, "\n    ", cs);
  }

  /** The text between the first brackets. */
  lemma BracketsIn(tail: string)
    requires ']' in tail
    ensures var rest := " [\n    " + tail;
            var b1, b2 := Position(rest, '['), Position(rest, ']');
            b1 < b2 < |rest| && rest[b1 + 1..b2] == "\n    " + Upto(tail, ']')
  {
    hide Position;
    var rest := " [\n    " + tail;
    assert rest == " " + ['['] + ("\n    " + tail);
    PositionAt(" ", '[', "\n    " + tail);
    UptoSkip(" [\n    ", tail, ']');
    UptoWithin(tail, "", ']');
  }

  /** What is read back: the id, and the contacts before the first with an IPv6 address. */
  lemma LoadPrinted(t: AddressText, id: Id, cs: seq<Contact>, now: nat)
    requires t.Lawful()
    ensures Load(t, Print(t, id, cs), now) == Loaded(id, Refreshed(BeforeV6(cs), now))
  {
    hide Print, GetString, GetContactsArray, ParseId, ToHex, PairsOf, ContactsFrom, BeforeV6;
    PrintedId(t, id, cs);
    HexRoundTrip(id);
    PrintedContacts(t, id, cs);
    ContactsOfPairs(t, BeforeV6(cs), now);
  }

  /** The state survives a restart exactly if no contact has an IPv6 address. */
  lemma SurvivesExactly(t: AddressText, id: Id, cs: seq<Contact>, now: nat)
    requires t.Lawful()
    ensures Load(t, Print(t, id, cs), now) == Loaded(id, Refreshed(cs, now))
            <==> forall c :: c in cs ==> c.addr.ip.V4?
  {
    hide Print, Load, AddressText.Lawful;
    LoadPrinted(t, id, cs, now);
    var kept := BeforeV6(cs);
    if |kept| == |cs| {
      assert kept == cs;
    } else {
      assert cs[|kept|] in cs;
      assert |Refreshed(kept, now)| != |Refreshed(cs, now)|;
    }
  }

  // ----- any text -----

  ghost predicate OccursAt(s: string, pattern: string, j: nat) {
    j + |pattern| <= |s| && s[j..j + |pattern|] == pattern
  }

  lemma OccursLater(s: string, pattern: string, j: nat)
    requires s != ""
    ensures OccursAt(s[1..], pattern, j) <==> OccursAt(s, pattern, j + 1)
  {
    if j + 1 + |pattern| <= |s| {
      assert s[1..][j..j + |pattern|] == s[j + 1..j + 1 + |pattern|];
    }
  }

  lemma OccursFirst(s: string, pattern: string)
    ensures OccursAt(s, pattern, 0) <==> |pattern| <= |s| && s[..|pattern|] == pattern
  {
    if |pattern| <= |s| {
      assert s[0..0 + |pattern|] == s[..|pattern|];
    }
  }

  /** The search finds what stands behind the first occurrence, if there is one. */
  lemma {:induction false} AfterExactly(s: string, pattern: string, k: nat)
    requires OccursAt(s, pattern, k) && forall j: nat :: j < k ==> !OccursAt(s, pattern, j)
    ensures After(s, pattern) == Some(s[k + |pattern|..])
    decreases k
  {
    hide OccursAt;
    OccursFirst(s, pattern);
    OccursWithin(s, pattern, k);
    if k > 0 {
      OccursLater(s, pattern, k - 1);
      forall j: nat | j < k - 1 ensures !OccursAt(s[1..], pattern, j) {
        OccursLater(s, pattern, j);
      }
      AfterExactly(s[1..], pattern, k - 1);
    }
  }

  lemma OccursWithin(s: string, pattern: string, k: nat)
    requires OccursAt(s, pattern, k)
    ensures k + |pattern| <= |s|
  {
  }

  lemma {:induction false} AfterNowhere(s: string, pattern: string)
    requires forall j: nat :: !OccursAt(s, pattern, j)
    ensures After(s, pattern) == None
    decreases |s|
  {
    hide OccursAt;
    OccursFirst(s, pattern);
    if |s| >= |pattern| && s != "" {
      forall j: nat ensures !OccursAt(s[1..], pattern, j) {
        OccursLater(s, pattern, j);
      }
      AfterNowhere(s[1..], pattern);
    }
  }

  /** A value is what stands between the next two quotation marks behind its key. */
  lemma StringExactly(json: string, key: string, before: string, value: string, behind: string)
    requires After(json, "\"" + key + "\":") == Some(before + "\"" + value + "\"" + behind)
    requires '"' !in before && '"' !in value
    ensures GetString(json, key) == Some(value)
  {
    hide After, Position;
    var rest := before + "\"" + value + "\"" + behind;
    assert rest == before + ['"'] + (value + "\"" + behind);
    PositionAt(before, '"', value + "\"" + behind);
    assert rest[|before| + 1..] == value + ['"'] + behind;
    PositionAt(value, '"', behind);
    assert rest[|before| + 1..][..|value|] == value;
  }

  /** Without a bracket of either kind behind the key there is no array. */
  lemma ArrayMissing(json: string, rest: string)
    requires After(json, Quoted("contacts")) == Some(rest) && ('[' !in rest || ']' !in rest)
    ensures GetContactsArray(json) == Missing
  {
    hide After, Pairs, Position, Quoted;
    if '[' !in rest {
      PositionNone(rest, '[');
    } else {
      PositionNone(rest, ']');
    }
  }

  /** The array is what stands between the first brackets of either kind. */
  lemma ArrayFound(json: string, before: string, inner: string, behind: string)
    requires After(json, Quoted("contacts")) == Some(before + "[" + inner + "]" + behind)
    requires '[' !in before && ']' !in before && ']' !in inner
    ensures GetContactsArray(json) == Found(Pairs(inner))
  {
    hide After, Pairs, Position, Quoted;
    var rest := before + "[" + inner + "]" + behind;
    assert rest == before + ['['] + (inner + "]" + behind);
    PositionAt(before, '[', inner + "]" + behind);
    assert rest == (before + "[" + inner) + [']'] + behind;
    PositionAt(before + "[" + inner, ']', behind);
    assert rest[|before| + 1..|before| + 1 + |inner|] == inner;
  }

  /** A closing bracket that comes before the first opening one is fatal. */
  lemma ArrayFatal(json: string, before: string, behind: string)
    requires After(json, Quoted("contacts")) == Some(before + "]" + behind)
    requires '[' !in before && ']' !in before && '[' in behind
    ensures GetContactsArray(json) == WrongOrder
  {
    hide After, Pairs, Position, Quoted;
    var rest := before + "]" + behind;
    PositionAt(before, ']', behind);
    OpensLater(before + "]", behind);
  }

  lemma OpensLater(a: string, b: string)
    requires '[' !in a && '[' in b
    ensures |a| <= Position(a + b, '[') < |a + b|
  {
    hide Position;
    var k, s := Position(a + b, '['), a + b;
    var m :| 0 <= m < |b| && b[m] == '[';
    assert s[|a| + m] == '[';
    assert s[..|s|] == s;
    assert forall i :: 0 <= i < |a| ==> s[i] == a[i] && a[i] in a;
  }

  /** Two entries, the first of them complete with its brace. */
  lemma EntriesExactly(block: string, rest: string, id: string, addr: string)
    requires '}' !in block
    ensures GetString(block, "id") == Some(id) && GetString(block, "addr") == Some(addr) ==>
              Pairs(block + "}" + rest) == [(id, addr)] + Pairs(rest)
    ensures GetString(block, "id") == None || GetString(block, "addr") == None ==>
              Pairs(block + "}" + rest) == Pairs(rest)
  {
    hide GetString, Pairs;
    PairsStep(block, rest);
  }

  /** An entry whose id or address does not parse is skipped, wherever it stands. */
  lemma {:induction false} BadEntrySkipped(t: AddressText, ps: seq<Pair>, bad: Pair, qs: seq<Pair>, now: nat)
    requires !ParseId(bad.0).Panics? && (ParseId(bad.0).Invalid? || t.parse(bad.1).None?)
    ensures ContactsFrom(t, ps + [bad] + qs, now) == ContactsFrom(t, ps + qs, now)
  {
    hide ParseId;
    if qs == [] {
      assert ps + [bad] + qs == ps + [bad] && ps + qs == ps;
      assert (ps + [bad])[..|ps|] == ps;
    } else {
      var init := qs[..|qs| - 1];
      BadEntrySkipped(t, ps, bad, init, now);
      assert (ps + [bad] + qs)[..|ps| + |qs|] == ps + [bad] + init && (ps + qs)[..|ps + qs| - 1] == ps + init;
    }
  }

  /** A good entry becomes a contact with the present time, in its place. */
  lemma GoodEntryRead(t: AddressText, ps: seq<Pair>, good: Pair, now: nat)
    requires ParseId(good.0).Parsed? && t.parse(good.1).Some?
    ensures var r := ContactsFrom(t, ps, now);
            ContactsFrom(t, ps + [good], now)
            == if r.None? then None else Some(r.value + [Contact(ParseId(good.0).bytes, t.parse(good.1).value, now)])
  {
    hide ParseId;
    assert (ps + [good])[..|ps|] == ps;
  }

  /** Reading the contacts is fatal exactly if some id is cut through a character. */
  lemma {:induction false} FatalExactly(t: AddressText, ps: seq<Pair>, now: nat)
    ensures ContactsFrom(t, ps, now) == None <==> exists p :: p in ps && ParseId(p.0).Panics?
  {
    hide ParseId;
    if ps != [] {
      var init, last := ps[..|ps| - 1], ps[|ps| - 1];
      FatalExactly(t, init, now);
      assert last in ps && forall p :: p in ps <==> p in init || p == last;
    }
  }

  /** How a start on any file ends. */
  lemma LoadExactly(t: AddressText, content: string, now: nat)
    ensures var id, found := GetString(content, "node_id"), GetContactsArray(content);
            && (id == None ==> Load(t, content, now) == MissingId)
            && (id.Some? && ParseId(id.value).Invalid? ==> Load(t, content, now) == InvalidId)
            && (Load(t, content, now) == Crashed <==>
                  id.Some? && !ParseId(id.value).Invalid?
                  && (ParseId(id.value).Panics? || found.WrongOrder?
                      || (found.Found? && exists p :: p in found.pairs && ParseId(p.0).Panics?)))
            && (Load(t, content, now).Loaded? ==>
                  && ParseId(id.value) == Parsed(Load(t, content, now).id)
                  && (found.Missing? ==> Load(t, content, now).contacts == [])
                  && (found.Found? ==> ContactsFrom(t, found.pairs, now) == Some(Load(t, content, now).contacts)))
  {
    hide GetString, GetContactsArray, ParseId, ContactsFrom;
    var found := GetContactsArray(content);
    if found.Found? {
      FatalExactly(t, found.pairs, now);
    }
  }
}
