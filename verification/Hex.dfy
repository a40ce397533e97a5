/**
 Node ids as hexadecimal text (nodex-kademlia/src/node.rs). A text is its characters; the source
 counts and cuts its UTF-8 bytes, and panics when it would cut a character in two.
 */
module Hex {
  import opened Bytes
  import opened NodeIds

  predicate IsLowerHex(c: char) {
    '0' <= c <= '9' || 'a' <= c <= 'f'
  }

  /** A hexadecimal digit of either case. */
  function DigitValue(c: char): (r: Option<nat>)
    ensures r.Some? ==> r.value < 16
  {
    if '0' <= c <= '9' then Some(c as int - '0' as int)
    else if 'a' <= c <= 'f' then Some(c as int - 'a' as int + 10)
    else if 'A' <= c <= 'F' then Some(c as int - 'A' as int + 10)
    else None
  }

  function Digit(n: nat): (c: char)
    requires n < 16
    ensures IsLowerHex(c) && DigitValue(c) == Some(n)
  {
    if n < 10 then ('0' as int + n) as char else ('a' as int + n - 10) as char
  }

  lemma LowerHexDigit(c: char)
    requires IsLowerHex(c)
    ensures DigitValue(c).Some? && Digit(DigitValue(c).value) == c
    ensures Width(c) == 1 && !IsSpace(c) && c != '+'
  {
  }

  function ByteHex(b: byte): (s: string)
    ensures |s| == 2
  {
    [Digit(Val(b) / 16), Digit(Val(b) % 16)]
  }

  /** `u8::from_str_radix` on two characters: a plus sign may take the place of the first digit. */
  function ParseByte(c0: char, c1: char): Option<byte> {
    var low := DigitValue(c1);
    var high := if c0 == '+' then Some(0) else DigitValue(c0);
    if high.Some? && low.Some? then Some(Byte(16 * high.value + low.value)) else None
  }

  lemma ByteHexRoundTrip(b: byte)
    ensures ParseByte(ByteHex(b)[0], ByteHex(b)[1]) == Some(b)
    ensures IsLowerHex(ByteHex(b)[0]) && IsLowerHex(ByteHex(b)[1])
  {
    hide Digit, DigitValue, IsLowerHex, Byte, Val;
    ValRoundTrip(b);
    var high, low := Val(b) / 16, Val(b) % 16;
    assert 16 * high + low == Val(b);
    LowerHexDigit(Digit(high));
  }

  lemma ParsedByteHex(c0: char, c1: char)
    requires IsLowerHex(c0) && IsLowerHex(c1)
    ensures ParseByte(c0, c1).Some? && ByteHex(ParseByte(c0, c1).value) == [c0, c1]
  {
    hide Digit, DigitValue, IsLowerHex;
    LowerHexDigit(c0);
    LowerHexDigit(c1);
    var high, low := DigitValue(c0).value, DigitValue(c1).value;
    ByteRoundTrip(16 * high + low);
    assert (16 * high + low) / 16 == high && (16 * high + low) % 16 == low;
  }

  function ToHex(s: seq<byte>): (r: string)
    ensures |r| == 2 * |s|
  {
    if s == [] then "" else ByteHex(s[0]) + ToHex(s[1..])
  }

  lemma {:induction false} HexCharacters(s: seq<byte>)
    ensures forall c :: c in ToHex(s) ==> IsLowerHex(c)
  {
    hide IsLowerHex, ByteHex, ParseByte;
    if s != [] {
      HexCharacters(s[1..]);
      ByteHexRoundTrip(s[0]);
    }
  }

  /** Unicode's White_Space. */
  predicate IsSpace(c: char) {
    || '\U{9}' <= c <= '\U{D}' || c == ' ' || c == '\U{85}' || c == '\U{A0}' || c == '\U{1680}'
    || '\U{2000}' <= c <= '\U{200A}' || '\U{2028}' <= c <= '\U{2029}' || c == '\U{202F}'
    || c == '\U{205F}' || c == '\U{3000}'
  }

  function TrimStart(s: string): string {
    if s != "" && IsSpace(s[0]) then TrimStart(s[1..]) else s
  }

  function TrimEnd(s: string): string {
    if s != "" && IsSpace(s[|s| - 1]) then TrimEnd(s[..|s| - 1]) else s
  }

  function Trim(s: string): string {
    TrimEnd(TrimStart(s))
  }

  /** How many bytes a character takes in UTF-8. */
  function Width(c: char): (w: nat)
    ensures 1 <= w <= 4
  {
    if c <= '\U{7F}' then 1 else if c <= '\U{7FF}' then 2 else if c <= '\U{FFFF}' then 3 else 4
  }

  function TotalWidth(s: string): nat {
    if s == "" then 0 else Width(s[0]) + TotalWidth(s[1..])
  }

  lemma TwoNarrow(t: string)
    requires |t| >= 2 && Width(t[0]) == Width(t[1]) == 1
    ensures TotalWidth(t) == 2 + TotalWidth(t[2..])
  {
    assert t[1..][1..] == t[2..];
  }

  datatype HexResult = Parsed(bytes: seq<byte>) | Invalid | Panics
  {
    /** The result when these bytes came first. */
    function After(before: seq<byte>): HexResult {
      if Parsed? then Parsed(before + bytes) else this
    }
  }

  /**
   Two bytes of text at a time: a single two-byte character is no number, and a longer one, or
   one that begins at the second byte, would be cut.
   */
  function ParsePairs(t: string): (r: HexResult)
    ensures r.Parsed? ==> TotalWidth(t) == 2 * |r.bytes|
  {
    hide Width;
    if t == "" then Parsed([])
    else if Width(t[0]) == 2 then Invalid
    else if Width(t[0]) > 2 || |t| == 1 || Width(t[1]) > 1 then Panics
    else
      TwoNarrow(t);
      match ParseByte(t[0], t[1])
      case None => Invalid
      case Some(b) =>
        ParsePairs(t[2..]).After([b])
  }

  function ParseId(s: string): (r: HexResult)
    ensures r.Parsed? ==> |r.bytes| == 20
  {
    if TotalWidth(Trim(s)) != 40 then Invalid else ParsePairs(Trim(s))
  }

  lemma WholeText(t: string)
    ensures TotalWidth(t) == 0 <==> t == ""
    ensures t == "" ==> ParsePairs(t) == Parsed([])
  {
  }

  lemma NoPair(t: string)
    requires t != ""
    ensures Width(t[0]) == 2 ==> ParsePairs(t) == Invalid
    ensures Width(t[0]) > 2 || (Width(t[0]) == 1 && (|t| == 1 || Width(t[1]) > 1)) ==> ParsePairs(t) == Panics
  {
    hide ParseByte, Width, TotalWidth;
  }

  lemma PairRead(t: string)
    requires |t| > 1 && Width(t[0]) == Width(t[1]) == 1
    ensures match ParseByte(t[0], t[1])
            case None => ParsePairs(t) == Invalid
            case Some(b) => ParsePairs(t) == ParsePairs(t[2..]).After([b])
  {
    hide ParseByte, Width, TotalWidth, HexResult.After;
  }

  lemma AfterBasics(r: HexResult, before: seq<byte>)
    ensures r.After([]) == r
    ensures Parsed([]).After(before) == Parsed(before)
    ensures !r.Parsed? ==> r.After(before) == r
  {
    assert before + [] == before;
    if r.Parsed? {
      assert [] + r.bytes == r.bytes;
    }
  }

  lemma AfterMore(r: HexResult, before: seq<byte>, b: byte)
    ensures r.After([b]).After(before) == r.After(before + [b])
  {
    if r.Parsed? {
      assert before + ([b] + r.bytes) == before + [b] + r.bytes;
    }
  }

  method FromHex(text: string) returns (r: HexResult)
    ensures r == ParseId(text)
  {
    hide ParseByte, Trim, Width, ParsePairs, TotalWidth, HexResult.After;
    var s := Trim(text);
    AfterBasics(ParsePairs(s), []);
    if TotalWidth(s) != 40 {
      return Invalid;
    }
    var bytes := new byte[20](_ => 0);
    var rest := s;
    for i := 0 to 20
      invariant TotalWidth(rest) == 40 - 2 * i
      invariant ParsePairs(s) == ParsePairs(rest).After(bytes[..i])
    {
      WholeText(rest);
      NoPair(rest);
      AfterBasics(ParsePairs(rest), bytes[..i]);
      if Width(rest[0]) == 2 {
        return Invalid;
      }
      if Width(rest[0]) > 2 || |rest| == 1 || Width(rest[1]) > 1 {
        return Panics;
      }
      TwoNarrow(rest);
      PairRead(rest);
      var parsed := ParseByte(rest[0], rest[1]);
      if parsed.None? {
        return Invalid;
      }
      ghost var before := bytes[..i];
      AfterMore(ParsePairs(rest[2..]), before, parsed.value);
      bytes[i] := parsed.value;
      assert bytes[..i + 1] == before + [parsed.value];
      rest := rest[2..];
    }
    WholeText(rest);
    AfterBasics(Invalid, bytes[..]);
    assert bytes[..20] == bytes[..];
    return Parsed(bytes[..]);
  }

  lemma {:induction false} NothingToTrim(s: string)
    requires forall c :: c in s ==> !IsSpace(c)
    ensures Trim(s) == s
  {
    if s != "" {
      assert s[0] in s && s[|s| - 1] in s;
    }
    assert TrimEnd(TrimStart(s)) == s;
  }

  lemma {:induction false} PairsOfHex(s: seq<byte>)
    ensures ParsePairs(ToHex(s)) == Parsed(s) && TotalWidth(ToHex(s)) == 2 * |s|
  {
    hide ByteHex, ParseByte, IsLowerHex, Width;
    if s != [] {
      ByteHexRoundTrip(s[0]);
      PairsOfHex(s[1..]);
      HexCharacters(s);
      var t := ToHex(s);
      assert t[0] in t && t[1] in t && t[2..] == ToHex(s[1..]);
      LowerHexDigit(t[0]);
      LowerHexDigit(t[1]);
      TwoNarrow(t);
      assert s == [s[0]] + s[1..];
    }
  }

  /** Reading back what was printed gives the same id. */
  lemma HexRoundTrip(id: Id)
    ensures ParseId(ToHex(id)) == Parsed(id)
  {
    hide Trim, ToHex, ParsePairs, TotalWidth, IsLowerHex, IsSpace;
    HexCharacters(id);
    forall c | c in ToHex(id) ensures !IsSpace(c) {
      LowerHexDigit(c);
    }
    NothingToTrim(ToHex(id));
    PairsOfHex(id);
  }

  lemma {:induction false} LowerCaseText(s: seq<byte>, t: string)
    requires ParsePairs(t) == Parsed(s) && forall c :: c in t ==> IsLowerHex(c)
    ensures t == ToHex(s)
  {
    hide ByteHex, ParseByte, IsLowerHex, Width;
    if t != "" {
      assert t[0] in t;
      LowerHexDigit(t[0]);
      assert |t| > 1 && t[1] in t;
      LowerHexDigit(t[1]);
      ParsedByteHex(t[0], t[1]);
      assert ParsePairs(t[2..]) == Parsed(s[1..]);
      LowerCaseText(s[1..], t[2..]);
      assert t == [t[0], t[1]] + t[2..];
    }
  }

  /** The text printed for an id is the only one in lower-case digits that reads as it. */
  lemma PrintedForm(id: Id, s: string)
    ensures s == ToHex(id) <==> ParseId(s) == Parsed(id) && forall c :: c in s ==> IsLowerHex(c)
  {
    hide Trim, ToHex, ParsePairs, TotalWidth, IsLowerHex, IsSpace;
    if s == ToHex(id) {
      HexRoundTrip(id);
      HexCharacters(id);
    }
    if ParseId(s) == Parsed(id) && forall c :: c in s ==> IsLowerHex(c) {
      forall c | c in s ensures !IsSpace(c) {
        LowerHexDigit(c);
      }
      NothingToTrim(s);
      LowerCaseText(id, s);
    }
  }

  /** Two characters for each byte. */
  ghost predicate Reads(t: string, bytes: seq<byte>) {
    |t| == 2 * |bytes| && forall i :: 0 <= i < |bytes| ==> ParseByte(t[2 * i], t[2 * i + 1]) == Some(bytes[i])
  }

  lemma {:induction false} PairsExactly(t: string, bytes: seq<byte>)
    ensures ParsePairs(t) == Parsed(bytes) <==> Reads(t, bytes)
    ensures ParsePairs(t) == Parsed(bytes) ==> TotalWidth(t) == |t|
  {
    hide *;
    WholeText(t);
    ReadsNone(t, bytes);
    if t != "" {
      NoPair(t);
      if |t| > 1 && bytes != [] {
        ReadableIsNarrow(t[0], t[1]);
        ReadsFirst(t, bytes);
        if Width(t[0]) == Width(t[1]) == 1 {
          PairRead(t);
          TwoNarrow(t);
          PairsExactly(t[2..], bytes[1..]);
          FirstByte(t, bytes);
        }
      }
    }
  }

  lemma ReadsNone(t: string, bytes: seq<byte>)
    ensures Reads("", bytes) <==> bytes == []
    ensures |t| == 1 ==> !Reads(t, bytes)
    ensures Reads(t, []) <==> t == ""
    ensures ParsePairs(t) == Parsed([]) ==> t == ""
    ensures ParsePairs(t) == Parsed(bytes) && |t| == 1 ==> false
  {
    hide ParseByte, Width;
  }

  lemma FirstByte(t: string, bytes: seq<byte>)
    requires |t| > 1 && bytes != [] && Width(t[0]) == Width(t[1]) == 1
    ensures ParsePairs(t) == Parsed(bytes) <==>
              ParseByte(t[0], t[1]) == Some(bytes[0]) && ParsePairs(t[2..]) == Parsed(bytes[1..])
  {
    hide ParseByte, Width, TotalWidth, ParsePairs;
    PairRead(t);
    assert bytes == [bytes[0]] + bytes[1..];
  }

  lemma ReadableIsNarrow(c0: char, c1: char)
    ensures ParseByte(c0, c1).Some? ==> Width(c0) == Width(c1) == 1
  {
  }

  lemma ReadsFirst(t: string, bytes: seq<byte>)
    requires |t| > 1 && bytes != []
    ensures Reads(t, bytes) <==> ParseByte(t[0], t[1]) == Some(bytes[0]) && Reads(t[2..], bytes[1..])
  {
    hide ParseByte;
    var rest, more := t[2..], bytes[1..];
    assert forall k :: 0 <= k < |rest| ==> rest[k] == t[k + 2];
    if ParseByte(t[0], t[1]) == Some(bytes[0]) && Reads(rest, more) {
      forall i | 0 <= i < |bytes| ensures ParseByte(t[2 * i], t[2 * i + 1]) == Some(bytes[i]) {
        if i > 0 {
          assert ParseByte(rest[2 * (i - 1)], rest[2 * (i - 1) + 1]) == Some(more[i - 1]);
        }
      }
    }
    if Reads(t, bytes) {
      assert ParseByte(t[2 * 0], t[2 * 0 + 1]) == Some(bytes[0]);
      forall i | 0 <= i < |more| ensures ParseByte(rest[2 * i], rest[2 * i + 1]) == Some(more[i]) {
        assert ParseByte(t[2 * (i + 1)], t[2 * (i + 1) + 1]) == Some(bytes[i + 1]);
      }
    }
  }

  /** Read as an id, white space around it aside, is exactly a text of forty characters, two for a byte. */
  lemma ReadExactly(s: string, id: Id)
    ensures ParseId(s) == Parsed(id) <==>
              var t := Trim(s);
              |t| == 40 && forall i :: 0 <= i < 20 ==> ParseByte(t[2 * i], t[2 * i + 1]) == Some(id[i])
  {
    hide ParsePairs, Trim, ParseByte, TotalWidth;
    PairsExactly(Trim(s), id);
  }

  /** After readable pairs, a character too wide to be one half of a pair, or no second half. */
  ghost predicate CutAt(t: string, i: nat) {
    && 2 * i < |t|
    && (forall k :: 0 <= k < i ==> ParseByte(t[2 * k], t[2 * k + 1]).Some?)
    && (Width(t[2 * i]) > 2 || (Width(t[2 * i]) == 1 && (2 * i + 1 == |t| || Width(t[2 * i + 1]) > 1)))
  }

  /** The reading panics exactly if a cut through a character is the first thing that stops it. */
  lemma {:induction false} PanicsExactly(t: string)
    ensures ParsePairs(t) == Panics <==> exists i: nat :: CutAt(t, i)
  {
    hide ParseByte, Width, TotalWidth, ParsePairs, CutAt;
    WholeText(t);
    if t == "" {
      NoCut();
    } else {
      NoPair(t);
      CutFirst(t);
      if |t| > 1 {
        ReadableIsNarrow(t[0], t[1]);
      }
      if |t| > 1 && Width(t[0]) == Width(t[1]) == 1 {
        PairRead(t);
        PanicsExactly(t[2..]);
        if i: nat :| CutAt(t, i) {
          CutLater(t, i - 1);
        }
        if i: nat :| CutAt(t[2..], i) && ParseByte(t[0], t[1]).Some? {
          CutLater(t, i);
        }
      } else if i: nat :| CutAt(t, i) && i > 0 {
        FirstReadable(t, i);
      }
    }
  }

  lemma NoCut()
    ensures forall i: nat :: !CutAt("", i)
  {
  }

  lemma CutFirst(t: string)
    requires t != ""
    ensures CutAt(t, 0) <==> Width(t[0]) > 2 || (Width(t[0]) == 1 && (|t| == 1 || Width(t[1]) > 1))
  {
    hide ParseByte, Width;
  }

  lemma FirstReadable(t: string, i: nat)
    requires CutAt(t, i) && i > 0
    ensures |t| > 1 && ParseByte(t[0], t[1]).Some?
  {
    hide ParseByte, Width;
    assert ParseByte(t[2 * 0], t[2 * 0 + 1]).Some?;
  }

  lemma CutLater(t: string, i: nat)
    requires |t| > 1
    ensures CutAt(t, i + 1) <==> ParseByte(t[0], t[1]).Some? && CutAt(t[2..], i)
  {
    hide ParseByte, Width;
    var rest := t[2..];
    assert forall k :: 0 <= k < |rest| ==> rest[k] == t[k + 2];
    if CutAt(t, i + 1) {
      assert ParseByte(t[2 * 0], t[2 * 0 + 1]).Some?;
      forall k | 0 <= k < i ensures ParseByte(rest[2 * k], rest[2 * k + 1]).Some? {
        assert ParseByte(t[2 * (k + 1)], t[2 * (k + 1) + 1]).Some?;
      }
    }
    if ParseByte(t[0], t[1]).Some? && CutAt(rest, i) {
      forall k | 0 <= k < i + 1 ensures ParseByte(t[2 * k], t[2 * k + 1]).Some? {
        if k > 0 {
          assert ParseByte(rest[2 * (k - 1)], rest[2 * (k - 1) + 1]).Some?;
        }
      }
    }
  }

  /** The digit of a number, in either case. */
  ghost predicate Denotes(c: char, n: nat) {
    || (n < 10 && c as int == '0' as int + n)
    || (10 <= n < 16 && (c as int == 'a' as int + n - 10 || c as int == 'A' as int + n - 10))
  }

  /** Two characters are read as the number of their digits; a plus sign may stand for a leading zero. */
  lemma PairMeans(c0: char, c1: char, h: nat, l: nat)
    requires (Denotes(c0, h) || (c0 == '+' && h == 0)) && Denotes(c1, l)
    ensures 16 * h + l < 256 && ParseByte(c0, c1) == Some(Byte(16 * h + l))
  {
    hide Byte;
  }

  /** Nothing else is read. */
  lemma OnlyPairs(c0: char, c1: char)
    ensures ParseByte(c0, c1).Some? ==>
              (c0 == '+' || exists h: nat :: Denotes(c0, h)) && exists l: nat :: Denotes(c1, l)
  {
    ValueMeans(c0);
    ValueMeans(c1);
    hide Byte, Denotes, DigitValue;
  }

  lemma ValueMeans(c: char)
    ensures DigitValue(c).Some? ==> Denotes(c, DigitValue(c).value)
  {
  }

  /** White space around an id is overlooked, as are white space characters of any script. */
  lemma {:induction false} SpaceAround(a: string, s: string, b: string)
    requires forall c :: c in a + b ==> IsSpace(c)
    requires s != "" && !IsSpace(s[0]) && !IsSpace(s[|s| - 1])
    ensures Trim(a + s + b) == s
  {
    if a != "" {
      assert (a + s + b)[1..] == a[1..] + s + b && (a + s + b)[0] == a[0] && a[0] in a + b;
      assert forall c :: c in a[1..] + b ==> c in a + b;
      SpaceAround(a[1..], s, b);
    } else if b != "" {
      var n := |b| - 1;
      assert a + s + b == s + b && (s + b)[0] == s[0];
      assert (s + b)[..|s + b| - 1] == s + b[..n] && b[n] in a + b;
      assert forall c :: c in a + b[..n] ==> c in a + b;
      SpaceAround("", s, b[..n]);
      assert "" + s + b[..n] == s + b[..n] && (s + b[..n])[0] == s[0];
    } else {
      assert a + s + b == s;
    }
  }
}
