/**
 Node identifiers and the XOR metric (nodex-kademlia/src/node.rs), with the
 prefix count of core-ffi/src/lib.rs. Distances are compared as byte arrays;
 the lemmas here say what that order means as an order of 160-bit numbers.
 */
module NodeIds {
  import opened Bytes

  const ID_SIZE: nat := 20
  const NUM_BITS: nat := 160

  type Id = s: seq<byte> | |s| == 20 witness seq(20, _ => 0)

  function Xor(a: byte, b: byte): byte {
    a ^ b
  }

  function Distance(a: Id, b: Id): (d: Id)
    ensures forall i :: 0 <= i < ID_SIZE ==> d[i] == Xor(a[i], b[i])
  {
    seq(ID_SIZE, i requires 0 <= i < ID_SIZE => Xor(a[i], b[i]))
  }

  /** Distance as the 160-bit number it denotes. */
  function Dist(a: Id, target: Id): nat {
    FromBE(Distance(a, target))
  }

  // ----- the order on byte arrays -----

  /** Index of the first byte, from `i` on, at which the two ids differ. */
  function FirstDiff(a: Id, b: Id, i: nat): (d: nat)
    requires i <= ID_SIZE
    ensures i <= d <= ID_SIZE
    ensures forall k :: i <= k < d ==> a[k] == b[k]
    ensures d < ID_SIZE ==> a[d] != b[d]
    decreases ID_SIZE - i
  {
    if i == ID_SIZE || a[i] != b[i] then i else FirstDiff(a, b, i + 1)
  }

  /** The derived order on `[u8; 20]`: the first differing byte decides. */
  predicate Less(a: Id, b: Id) {
    var d := FirstDiff(a, b, 0);
    d < ID_SIZE && a[d] < b[d]
  }

  lemma FirstDiffUnique(a: Id, b: Id, d: nat)
    requires d < ID_SIZE
    requires forall k :: 0 <= k < d ==> a[k] == b[k]
    requires a[d] != b[d]
    ensures FirstDiff(a, b, 0) == d
  {
  }

  /** If the first `d` bytes agree and byte `d` is smaller, so is the number. */
  lemma SmallerByteSmallerNumber(a: Id, b: Id, d: nat)
    requires d < ID_SIZE
    requires forall k :: 0 <= k < d ==> a[k] == b[k]
    requires a[d] < b[d]
    ensures FromBE(a) < FromBE(b)
  {
    hide FromBE, Val;
    assert a[..d] == b[..d];
    LastByte(a[..d], a[d]);
    LastByte(a[..d], b[d]);
    ValMonotone(a[d], b[d]);
    HeadDecides(a[..d] + [a[d]], a[..d] + [b[d]], a[d + 1..], b[d + 1..]);
    assert a == a[..d] + [a[d]] + a[d + 1..];
    assert b == a[..d] + [b[d]] + b[d + 1..];
  }

  /** Comparing distances as byte arrays is comparing them as numbers. */
  lemma LessIsNumeric(a: Id, b: Id)
    ensures Less(a, b) <==> FromBE(a) < FromBE(b)
  {
    var d := FirstDiff(a, b, 0);
    if d < ID_SIZE {
      if a[d] < b[d] {
        SmallerByteSmallerNumber(a, b, d);
      } else {
        SmallerByteSmallerNumber(b, a, d);
      }
    } else {
      assert a == b;
    }
  }

  /** For a fixed target, distinct ids lie at distinct distances. */
  lemma DistInjective(a: Id, b: Id, target: Id)
    requires Dist(a, target) == Dist(b, target)
    ensures a == b
  {
    FromBEInjective(Distance(a, target), Distance(b, target));
    DistanceInjective(a, b, target);
  }

  lemma DistanceInjective(a: Id, b: Id, target: Id)
    requires Distance(a, target) == Distance(b, target)
    ensures a == b
  {
  }

  lemma XorCancels(a: byte, b: byte, t: byte)
    requires Xor(a, t) == Xor(b, t)
    ensures a == b
  {
  }

  lemma DistZero(a: Id, b: Id)
    ensures Dist(a, b) == 0 <==> a == b
  {
    var zero: Id := seq(ID_SIZE, _ => 0);
    assert Distance(b, b) == zero by {
      forall i | 0 <= i < ID_SIZE ensures Distance(b, b)[i] == zero[i] {
      }
    }
    ZeroNumber(ID_SIZE);
    if Dist(a, b) == 0 {
      DistInjective(a, b, b);
    }
  }

  lemma {:induction false} ZeroNumber(n: nat)
    ensures FromBE(seq(n, _ => 0)) == 0
  {
    if n > 0 {
      var s: seq<byte> := seq(n, _ => 0);
      assert s[..n - 1] == seq(n - 1, _ => 0);
      ZeroNumber(n - 1);
    }
  }

  // ----- shared prefixes -----

  /** `u8::leading_zeros`. */
  function LeadingZeros(b: byte): (n: nat)
    ensures n <= 8
    ensures n == 8 <==> b == 0
  {
    if b & 0x80 != 0 then 0
    else if b & 0x40 != 0 then 1
    else if b & 0x20 != 0 then 2
    else if b & 0x10 != 0 then 3
    else if b & 0x08 != 0 then 4
    else if b & 0x04 != 0 then 5
    else if b & 0x02 != 0 then 6
    else if b & 0x01 != 0 then 7
    else 8
  }

  function Mask(k: nat): byte
    requires k < 8
  {
    if k == 0 then 0x80 else if k == 1 then 0x40 else if k == 2 then 0x20
    else if k == 3 then 0x10 else if k == 4 then 0x08 else if k == 5 then 0x04
    else if k == 6 then 0x02 else 0x01
  }

  /** Bit `k` of a byte, bit 0 being the most significant. */
  predicate BitOfByte(b: byte, k: nat)
    requires k < 8
  {
    b & Mask(k) != 0
  }

  /** Bit `k` of an id, bit 0 being the most significant of the 160. */
  predicate BitOf(id: Id, k: nat)
    requires k < NUM_BITS
  {
    BitOfByte(id[k / 8], k % 8)
  }

  /** The ids agree on their first `n` bits and, unless `n` is 160, differ at bit `n`. */
  ghost predicate AgreeExactly(a: Id, b: Id, n: nat) {
    n <= NUM_BITS
    && (forall k :: 0 <= k < n ==> BitOf(a, k) == BitOf(b, k))
    && (n < NUM_BITS ==> BitOf(a, n) != BitOf(b, n))
  }

  /** Number of shared prefix bits, counted byte by byte. */
  function SharedPrefix(a: Id, b: Id): (n: nat)
    ensures n <= NUM_BITS
  {
    var d := FirstDiff(a, b, 0);
    if d == ID_SIZE then NUM_BITS else 8 * d + LeadingZeros(Xor(a[d], b[d]))
  }

  /** `ffi_shared_prefix_bits`: the loop adds 8 per equal byte and stops at the first other. */
  method SharedPrefixBits(id1: Id, id2: Id) returns (count: nat)
    ensures count == SharedPrefix(id1, id2)
    ensures AgreeExactly(id1, id2, count)
  {
    count := 0;
    var i := 0;
    while i < ID_SIZE
      invariant 0 <= i <= ID_SIZE
      invariant count == 8 * i
      invariant forall k :: 0 <= k < i ==> id1[k] == id2[k]
    {
      var x := Xor(id1[i], id2[i]);
      if x == 0 {
        XorZero(id1[i], id2[i]);
        count := count + 8;
      } else {
        count := count + LeadingZeros(x);
        break;
      }
      i := i + 1;
    }
    if i < ID_SIZE {
      XorZero(id1[i], id2[i]);
      FirstDiffUnique(id1, id2, i);
    }
    PrefixIsBitwise(id1, id2);
  }

  lemma XorZero(a: byte, b: byte)
    ensures Xor(a, b) == 0 <==> a == b
  {
  }

  /** Within one byte, the leading zeros of the XOR count the agreeing leading bits. */
  lemma LeadingZerosIsAgreement(a: byte, b: byte, k: nat)
    requires k < 8
    ensures k < LeadingZeros(Xor(a, b)) ==> BitOfByte(a, k) == BitOfByte(b, k)
    ensures k == LeadingZeros(Xor(a, b)) ==> BitOfByte(a, k) != BitOfByte(b, k)
  {
    XorBit(a, b, k);
    LeadingZerosBits(Xor(a, b), k);
  }

  lemma XorBit(a: byte, b: byte, k: nat)
    requires k < 8
    ensures BitOfByte(a ^ b, k) <==> (BitOfByte(a, k) != BitOfByte(b, k))
  {
    hide Mask;
    MaskIsOneBit(k);
    XorMasked(a, b, Mask(k));
  }

  lemma MaskIsOneBit(k: nat)
    requires k < 8
    ensures Mask(k) in {0x80, 0x40, 0x20, 0x10, 8, 4, 2, 1}
  {
  }

  lemma XorMasked(a: byte, b: byte, m: byte)
    requires m in {0x80, 0x40, 0x20, 0x10, 8, 4, 2, 1}
    ensures (a ^ b) & m != 0 <==> ((a & m != 0) != (b & m != 0))
  {
  }

  lemma LeadingZerosBits(b: byte, k: nat)
    requires k < 8
    ensures k < LeadingZeros(b) ==> !BitOfByte(b, k)
    ensures k == LeadingZeros(b) ==> BitOfByte(b, k)
  {
  }

  /** The byte-wise count is the bit-wise one. */
  lemma PrefixIsBitwise(a: Id, b: Id)
    ensures AgreeExactly(a, b, SharedPrefix(a, b))
  {
    hide Xor, LeadingZeros, BitOfByte;
    var n, d := SharedPrefix(a, b), FirstDiff(a, b, 0);
    if d < ID_SIZE {
      XorZero(a[d], b[d]);
    }
    forall k | 0 <= k < n ensures BitOf(a, k) == BitOf(b, k) {
      if k / 8 == d {
        LeadingZerosIsAgreement(a[d], b[d], k % 8);
      }
    }
    if d < ID_SIZE {
      LeadingZerosIsAgreement(a[d], b[d], n % 8);
    }
  }

  /** At most one count fits the bit-wise description. */
  lemma AgreementUnique(a: Id, b: Id, m: nat, n: nat)
    requires AgreeExactly(a, b, m) && AgreeExactly(a, b, n)
    ensures m == n
  {
  }

  lemma PrefixFull(a: Id, b: Id)
    ensures SharedPrefix(a, b) == NUM_BITS <==> a == b
  {
  }

  // ----- what a bucket is, geometrically -----

  lemma {:induction false} Pow2Sum(m: nat, n: nat)
    ensures Pow2(m + n) == Pow2(m) * Pow2(n)
  {
    if m > 0 {
      Pow2Sum(m - 1, n);
      assert Pow2(m) * Pow2(n) == 2 * (Pow2(m - 1) * Pow2(n));
    }
  }

  lemma {:induction false} Pow256IsPow2(n: nat)
    ensures Pow256(n) == Pow2(8 * n)
  {
    if n > 0 {
      Pow256IsPow2(n - 1);
      Pow2Sum(8, 8 * (n - 1));
      Pow2Eight();
    }
  }

  lemma Pow2Eight()
    ensures Pow2(1) == 2 && Pow2(2) == 4 && Pow2(3) == 8 && Pow2(4) == 16
    ensures Pow2(5) == 32 && Pow2(6) == 64 && Pow2(7) == 128 && Pow2(8) == 256
  {
  }

  /** A nonzero byte with `z` leading zeros lies in [2^(7-z), 2^(8-z)). */
  lemma LeadingZerosRange(b: byte)
    requires b != 0
    ensures LeadingZeros(b) < 8
    ensures Pow2(7 - LeadingZeros(b)) <= Val(b) < Pow2(8 - LeadingZeros(b))
  {
    Pow2Eight();
    var z := LeadingZeros(b);
    assert z == 0 ==> 128 <= Val(b);
    assert z == 1 ==> 64 <= Val(b) < 128;
    assert z == 2 ==> 32 <= Val(b) < 64;
    assert z == 3 ==> 16 <= Val(b) < 32;
    assert z == 4 ==> 8 <= Val(b) < 16;
    assert z == 5 ==> 4 <= Val(b) < 8;
    assert z == 6 ==> 2 <= Val(b) < 4;
    assert z == 7 ==> 1 <= Val(b) < 2;
  }

  /** A number whose first `d` bytes are zero and whose byte `d` has `z` leading zeros. */
  lemma LeadingByteRange(x: Id, d: nat, z: nat)
    requires d < ID_SIZE && z == LeadingZeros(x[d])
    requires x[..d] == seq(d, _ => 0) && x[d] != 0
    ensures z < 8 && Pow2(159 - 8 * d - z) <= FromBE(x) < Pow2(160 - 8 * d - z)
  {
    hide LeadingZeros, Val, Pow2, Pow256, FromBE;
    LeadingZerosRange(x[d]);
    var low := ID_SIZE - 1 - d;
    var tail := x[d + 1..];
    ZeroNumber(d);
    LastByte(x[..d], x[d]);
    assert x == x[..d] + [x[d]] + tail;
    FromBEAppend(x[..d] + [x[d]], tail);
    FromBEBound(tail);
    Pow256IsPow2(low);
    ScaledRange(Pow2(7 - z), Val(x[d]), Pow2(8 - z), Pow2(8 * low), FromBE(tail));
    Pow2Sum(7 - z, 8 * low);
    Pow2Sum(8 - z, 8 * low);
  }

  lemma ScaledRange(lo: nat, v: nat, hi: nat, p: nat, r: nat)
    requires lo <= v < hi && r < p
    ensures lo * p <= v * p + r < hi * p
  {
    assert lo * p <= v * p;
    assert (v + 1) * p <= hi * p;
  }

  lemma {:induction false} Pow2Increasing(m: nat, n: nat)
    requires m <= n
    ensures Pow2(m) <= Pow2(n)
  {
    if m < n {
      Pow2Increasing(m, n - 1);
    }
  }

  /**
   Bucket geometry: `other` shares exactly `i` prefix bits with `local` if and only if
   their distance, as a number, lies in [2^(159-i), 2^(160-i)).
   */
  lemma BucketGeometry(local: Id, other: Id, i: nat)
    requires i < NUM_BITS
    ensures SharedPrefix(local, other) == i
            <==> Pow2(159 - i) <= Dist(local, other) < Pow2(160 - i)
  {
    hide SharedPrefix, Dist, Pow2;
    var n := SharedPrefix(local, other);
    PrefixFull(local, other);
    DistZero(local, other);
    if n < NUM_BITS {
      PrefixRange(local, other);
      if n < i {
        Pow2Increasing(160 - i, 159 - n);
      } else if i < n {
        Pow2Increasing(160 - n, 159 - i);
      }
    }
  }

  lemma PrefixRange(local: Id, other: Id)
    requires local != other
    ensures var n := SharedPrefix(local, other);
            n < NUM_BITS && Pow2(159 - n) <= Dist(local, other) < Pow2(160 - n)
  {
    hide Xor, LeadingZeros;
    FirstDiffFromPrefix(local, other);
    var x, d := Distance(local, other), FirstDiff(local, other, 0);
    forall k | 0 <= k < d ensures x[k] == 0 {
      XorZero(local[k], other[k]);
    }
    XorZero(local[d], other[d]);
    LeadingByteRange(x, d, LeadingZeros(x[d]));
  }

  // ----- why a bucket contact always makes progress -----

  /** Of two bytes, the one with the first differing bit set is the larger. */
  lemma FirstBitDecides(a: byte, b: byte)
    requires a != b
    ensures LeadingZeros(Xor(a, b)) < 8 && (b < a <==> BitOfByte(a, LeadingZeros(Xor(a, b))))
  {
    XorZero(a, b);
    ByteOrder(a, b, LeadingZeros(Xor(a, b)));
  }

  lemma ByteOrder(a: byte, b: byte, k: nat)
    requires k < 8 && LeadingZeros(a ^ b) == k
    ensures b < a <==> BitOfByte(a, k)
  {
  }

  lemma XorCommon(a: byte, b: byte, t: byte)
    ensures Xor(Xor(a, t), Xor(b, t)) == Xor(a, b)
  {
  }

  /** The XOR's first set bit marks where `l` differs; there `x` and `c` agree. */
  lemma CloserByte(l: byte, x: byte, c: byte, t: byte)
    requires LeadingZeros(Xor(l, x)) == LeadingZeros(Xor(l, c)) < 8
    requires Xor(c, t) < Xor(l, t)
    ensures Xor(x, t) < Xor(l, t)
  {
    hide *;
    XorCommon(l, c, t);
    XorCommon(l, x, t);
    FirstBitDecides(Xor(l, t), Xor(c, t));
    if Xor(l, t) == Xor(x, t) {
      XorZero(Xor(l, t), Xor(x, t));
    } else {
      FirstBitDecides(Xor(l, t), Xor(x, t));
    }
  }

  /**
   If `c` is closer to `target` than `l` is, then so is every `x` that shares with `l`
   exactly as many prefix bits as `c` does: every member of `c`'s bucket makes progress.
   */
  lemma SameBucketIsCloser(l: Id, x: Id, c: Id, target: Id)
    requires SharedPrefix(l, x) == SharedPrefix(l, c)
    requires Dist(c, target) < Dist(l, target)
    ensures Dist(x, target) < Dist(l, target)
  {
    hide Xor, LeadingZeros;
    var d := FirstDiff(l, c, 0);
    PrefixFull(l, c);
    FirstDiffFromPrefix(l, c);
    FirstDiffFromPrefix(l, x);
    DecidedAt(c, l, target, d);
    CloserByte(l[d], x[d], c[d], target[d]);
    DecidedAt(x, l, target, d);
  }

  /** The first differing byte can be read off the prefix length. */
  lemma FirstDiffFromPrefix(a: Id, b: Id)
    requires a != b
    ensures var n := SharedPrefix(a, b); var d := n / 8;
            d < ID_SIZE && FirstDiff(a, b, 0) == d && n % 8 == LeadingZeros(Xor(a[d], b[d])) < 8
  {
  }

  /** Two distances compare as their bytes do at the first position where the ids differ. */
  lemma DecidedAt(a: Id, b: Id, target: Id, d: nat)
    requires d < ID_SIZE && a[d] != b[d]
    requires forall k :: 0 <= k < d ==> a[k] == b[k]
    ensures Dist(a, target) < Dist(b, target) <==> Xor(a[d], target[d]) < Xor(b[d], target[d])
  {
    hide Xor;
    var da, db := Distance(a, target), Distance(b, target);
    if da[d] < db[d] {
      SmallerByteSmallerNumber(da, db, d);
    } else {
      if da[d] == db[d] {
        XorCancels(a[d], b[d], target[d]);
      }
      SmallerByteSmallerNumber(db, da, d);
    }
  }

  // ----- the id space is finite -----

  ghost function AllStrings(n: nat): set<seq<byte>> {
    if n == 0 then {[]}
    else set i, s | 0 <= i < 256 && s in AllStrings(n - 1) :: s + [Byte(i)]
  }

  lemma {:induction false} AllStringsComplete(s: seq<byte>)
    ensures s in AllStrings(|s|)
  {
    if s != [] {
      var n := |s| - 1;
      AllStringsComplete(s[..n]);
      ValRoundTrip(s[n]);
      assert s == s[..n] + [Byte(Val(s[n]))];
    }
  }

  ghost function AllIds(): set<seq<byte>> {
    AllStrings(ID_SIZE)
  }

  lemma AllIdsComplete(id: Id)
    ensures id in AllIds()
  {
    AllStringsComplete(id);
  }
}
