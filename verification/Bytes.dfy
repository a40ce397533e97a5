/**
 Bytes and big-endian numbers, as `to_be_bytes` and `from_be_bytes` lay them out.
 A byte is a machine byte; a number is a mathematical natural below 256^width.
 */
module Bytes {

  type byte = bv8

  datatype Option<+T> = None | Some(value: T)

  datatype Result<+T> = Ok(value: T) | Err

  /** The largest value a message or a store may carry. */
  const MAX_VALUE_SIZE: nat := 65536

  function Byte(n: int): byte
    requires 0 <= n < 256
  {
    n as bv8
  }

  function Val(b: byte): (n: int)
    ensures 0 <= n < 256
  {
    b as int
  }

  lemma SuccessorByte(b: byte)
    requires b != 255
    ensures Val(b + 1) == Val(b) + 1
  {
  }

  lemma {:induction false} EveryValueTaken(n: int) returns (b: byte)
    requires 0 <= n < 256
    ensures Val(b) == n
  {
    if n == 0 {
      b := 0;
    } else {
      var c := EveryValueTaken(n - 1);
      SuccessorByte(c);
      b := c + 1;
    }
  }

  lemma ByteRoundTrip(n: int)
    requires 0 <= n < 256
    ensures Val(Byte(n)) == n
  {
    var b := EveryValueTaken(n);
    ValRoundTrip(b);
  }

  lemma ValRoundTrip(b: byte)
    ensures Byte(Val(b)) == b
  {
  }

  lemma ValInjective(a: byte, b: byte)
    requires Val(a) == Val(b)
    ensures a == b
  {
  }

  /** The machine comparison of bytes is the comparison of their values. */
  lemma ValMonotone(a: byte, b: byte)
    ensures a < b <==> Val(a) < Val(b)
  {
  }

  function Min(a: nat, b: nat): nat {
    if a <= b then a else b
  }

  function Pow2(n: nat): (p: nat)
    ensures p >= 1
  {
    if n == 0 then 1 else 2 * Pow2(n - 1)
  }

  function Pow256(n: nat): (p: nat)
    ensures p >= 1
  {
    if n == 0 then 1 else 256 * Pow256(n - 1)
  }

  /** The number a byte string denotes, most significant byte first. */
  function FromBE(s: seq<byte>): nat {
    if s == [] then 0 else 256 * FromBE(s[..|s| - 1]) + Val(s[|s| - 1])
  }

  function ToBE(n: nat, width: nat): (s: seq<byte>)
    ensures |s| == width
  {
    if width == 0 then [] else ToBE(n / 256, width - 1) + [Byte(n % 256)]
  }

  lemma {:induction false} FromBEBound(s: seq<byte>)
    ensures FromBE(s) < Pow256(|s|)
  {
    if s != [] {
      FromBEBound(s[..|s| - 1]);
    }
  }

  lemma {:induction false} BERoundTrip(n: nat, width: nat)
    requires n < Pow256(width)
    ensures FromBE(ToBE(n, width)) == n
  {
    if width > 0 {
      var high, low := n / 256, n % 256;
      assert ToBE(n, width) == ToBE(high, width - 1) + [Byte(low)];
      assert high < Pow256(width - 1);
      hide *;
      BERoundTrip(high, width - 1);
      ByteRoundTrip(low);
      LastByte(ToBE(high, width - 1), Byte(low));
    }
  }

  /** Every byte string is the form of its number. */
  lemma ToBEOfFromBE(s: seq<byte>)
    ensures FromBE(s) < Pow256(|s|) && ToBE(FromBE(s), |s|) == s
  {
    hide FromBE, ToBE;
    FromBEBound(s);
    BERoundTrip(FromBE(s), |s|);
    FromBEInjective(ToBE(FromBE(s), |s|), s);
  }

  lemma {:induction false} FromBEInjective(s: seq<byte>, t: seq<byte>)
    requires |s| == |t|
    requires FromBE(s) == FromBE(t)
    ensures s == t
  {
    hide Val;
    if s != [] {
      var n := |s| - 1;
      FromBEInjective(s[..n], t[..n]);
      ValInjective(s[n], t[n]);
      assert s == s[..n] + [s[n]] && t == t[..n] + [t[n]];
    }
  }

  lemma Scale256(x: nat, p: nat, y: nat)
    ensures 256 * (x * p + y) == x * (256 * p) + 256 * y
  {
  }

  /** Splitting a byte string in two splits the number it denotes. */
  lemma {:induction false} FromBEAppend(s: seq<byte>, t: seq<byte>)
    ensures FromBE(s + t) == FromBE(s) * Pow256(|t|) + FromBE(t)
  {
    if t == [] {
      assert s + t == s;
    } else {
      var n := |t| - 1;
      FromBEAppend(s, t[..n]);
      var u := s + t;
      assert u[..|u| - 1] == s + t[..n] && u[|u| - 1] == t[n];
      Scale256(FromBE(s), Pow256(n), FromBE(t[..n]));
    }
  }

  lemma ScaledLess(x: nat, y: nat, p: nat, r: nat, r': nat)
    requires x < y && r < p
    ensures x * p + r < y * p + r'
  {
    assert (x + 1) * p <= y * p;
  }

  /** The leading bytes decide which of two equally long strings is the larger number. */
  lemma HeadDecides(p: seq<byte>, q: seq<byte>, s: seq<byte>, t: seq<byte>)
    requires |s| == |t|
    requires FromBE(p) < FromBE(q)
    ensures FromBE(p + s) < FromBE(q + t)
  {
    FromBEAppend(p, s);
    FromBEAppend(q, t);
    FromBEBound(s);
    ScaledLess(FromBE(p), FromBE(q), Pow256(|s|), FromBE(s), FromBE(t));
  }

  lemma LastByte(s: seq<byte>, b: byte)
    ensures FromBE(s + [b]) == 256 * FromBE(s) + Val(b)
  {
  }

  lemma Pow256Values()
    ensures Pow256(1) == 256 && Pow256(2) == 0x1_0000
    ensures Pow256(4) == 0x1_0000_0000 && Pow256(8) == 0x1_0000_0000_0000_0000
  {
  }
}
