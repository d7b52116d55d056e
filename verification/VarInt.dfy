/** The variable-length integer header, mls-rs-codec/src/varint.rs (section 2.1.2 of RFC 9420). */
module VarInts {
  import opened Bits
  import opened Bytes
  import opened CodecErrors

  const MAX: nat := 0x3FFF_FFFF

  // ----- The code's length classifier -----

  /** Number of clear bits above the highest set bit of a `width`-bit word. */
  function LeadingZeros(n: nat, width: nat): (r: nat)
    ensures r <= width
  {
    if width == 0 || n >= Pow2(width - 1) then 0 else 1 + LeadingZeros(n, width - 1)
  }

  /** `count_bytes_to_encode_int`; `None` is its panic arm. */
  function CountBytes(n: nat): Option<nat> {
    var usedBits := 32 - LeadingZeros(n, 32);
    if usedBits <= 6 then Some(1)
    else if usedBits <= 14 then Some(2)
    else if usedBits <= 30 then Some(4)
    else None
  }

  // ----- The arithmetic definition -----

  /** Bytes of the shortest form of `n`. */
  function ByteCount(n: nat): nat {
    if n < 0x40 then 1 else if n < 0x4000 then 2 else 4
  }

  /** The two-bit prefix that announces a form of `count` bytes, moved to the top of that form. */
  function PrefixOf(count: nat): nat {
    if count == 1 then 0 else if count == 2 then 0x4000 else 0x8000_0000
  }

  function EncodeVarInt(n: nat): (r: ByteSeq)
    requires n <= MAX
    ensures |r| == ByteCount(n)
  {
    PowersOf256();
    ToBigEndian(PrefixOf(ByteCount(n)) + n, ByteCount(n))
  }

  /** What is left of the input is reported on failure too: the reader has moved past it. */
  function DecodeVarInt(d: ByteSeq): (p: Parsed<nat>)
    ensures IsSuffix(p.rest, d)
    ensures p.result.Ok? ==> |p.rest| < |d| && p.result.value <= MAX
  {
    if |d| == 0 then Parsed(Err(UnexpectedEOF), d)
    else if d[0] >= 0xC0 then Parsed(Err(InvalidVarIntPrefix(3)), d[1..])
    else
      var count := if d[0] < 0x40 then 1 else if d[0] < 0x80 then 2 else 4;
      if |d| < count then Parsed(Err(UnexpectedEOF), [])
      else
        var n := FromBigEndian([d[0] % 0x40] + d[1..count]);
        HeaderBound([d[0] % 0x40] + d[1..count]);
        if ByteCount(n) == count then Parsed(Ok(n), d[count..])
        else Parsed(Err(VarIntMinimumLengthEncoding), d[count..])
  }

  lemma PowersOf256()
    ensures Pow256(1) == 0x100 && Pow256(2) == 0x1_0000
    ensures Pow256(3) == 0x100_0000 && Pow256(4) == 0x1_0000_0000
  {
    assert Pow256(0) == 1;
    assert Pow256(1) == 256 * Pow256(0);
    assert Pow256(2) == 256 * Pow256(1);
    assert Pow256(3) == 256 * Pow256(2);
  }

  lemma {:induction false} BigEndianSplit(first: Byte, tail: ByteSeq)
    ensures FromBigEndian([first] + tail) == first * Pow256(|tail|) + FromBigEndian(tail)
  {
    if |tail| == 0 {
      assert [first] + tail == [first];
      assert FromBigEndian([]) == 0;
      assert [first][..0] == [];
    } else {
      var init, last := tail[..|tail| - 1], tail[|tail| - 1];
      BigEndianSplit(first, init);
      assert ([first] + tail)[..|tail|] == [first] + init;
    }
  }

  lemma HeaderBound(bs: ByteSeq)
    requires |bs| in {1, 2, 4} && bs[0] < 0x40
    ensures FromBigEndian(bs) < (if |bs| == 1 then 0x40 else if |bs| == 2 then 0x4000 else MAX + 1)
  {
    PowersOf256();
    assert bs == [bs[0]] + bs[1..];
    BigEndianSplit(bs[0], bs[1..]);
    FromBigEndianInverse(bs[1..]);
  }

  // ----- Classifier and arithmetic agree -----

  lemma {:induction false} UsedBits(n: nat, width: nat, k: nat)
    requires n < Pow2(width) && k <= width
    ensures width - LeadingZeros(n, width) <= k <==> n < Pow2(k)
  {
    if width > 0 {
      if n >= Pow2(width - 1) {
        if k < width { Pow2Monotone(k, width - 1); }
      } else if k < width {
        UsedBits(n, width - 1, k);
      }
    } else {
      assert Pow2(0) == 1;
    }
  }

  lemma Pow2Values()
    ensures Pow2(6) == 0x40 && Pow2(14) == 0x4000 && Pow2(30) == 0x4000_0000 && Pow2(32) == 0x1_0000_0000
  {
    assert Pow2(5) == 32;
    assert Pow2(10) == 1024;
    assert Pow2(15) == 32768;
    assert Pow2(20) == 1048576;
    assert Pow2(25) == 33554432;
  }

  /** The leading-zeros classifier gives the shortest form, and panics exactly above `MAX`. */
  lemma {:induction false} CountBytesIsShortest(n: nat)
    requires n < 0x1_0000_0000
    ensures CountBytes(n) == (if n <= MAX then Some(ByteCount(n)) else None)
  {
    Pow2Values();
    UsedBits(n, 32, 6);
    UsedBits(n, 32, 14);
    UsedBits(n, 32, 30);
  }

  // ----- Decoding inverts encoding and accepts nothing else -----

  /** Integers that a form of `count` bytes has room for. */
  function Room(count: nat): nat {
    if count == 1 then 0x40 else if count == 2 then 0x4000 else 0x4000_0000
  }

  /** Stripping the prefix bits of the first byte strips the prefix from the integer, and back. */
  lemma PrefixBits(bs: ByteSeq, n: nat)
    requires |bs| in {1, 2, 4} && n < Room(|bs|)
    ensures FromBigEndian(bs) == PrefixOf(|bs|) + n <==>
            && bs[0] / 0x40 == |bs| / 2
            && FromBigEndian([bs[0] % 0x40] + bs[1..]) == n
  {
    PowersOf256();
    assert Pow256(0) == 1;
    assert bs == [bs[0]] + bs[1..];
    BigEndianSplit(bs[0], bs[1..]);
    BigEndianSplit(bs[0] % 0x40, bs[1..]);
    FromBigEndianInverse(bs[1..]);
    PrefixArithmetic(|bs|, bs[0], FromBigEndian(bs[1..]), n);
  }

  /** The weight of the first byte of a form of `count` bytes. */
  function Weight(count: nat): nat {
    if count == 1 then 1 else if count == 2 then 0x100 else 0x100_0000
  }

  lemma PrefixArithmetic(count: nat, first: int, tail: int, n: int)
    requires count in {1, 2, 4} && 0 <= first < 256 && 0 <= tail < Weight(count) && 0 <= n < Room(count)
    ensures first * Weight(count) + tail == PrefixOf(count) + n <==>
            first / 0x40 == count / 2 && (first % 0x40) * Weight(count) + tail == n
  {
    var q, r := first / 0x40, first % 0x40;
    assert first == 0x40 * q + r;
  }

  lemma {:induction false} VarIntRoundTrip(n: nat, t: ByteSeq)
    requires n <= MAX
    ensures DecodeVarInt(EncodeVarInt(n) + t) == Parsed(Ok(n), t)
  {
    var e, count := EncodeVarInt(n), ByteCount(n);
    assert FromBigEndian(e) == PrefixOf(count) + n by {
      PowersOf256();
      BigEndianInverse(PrefixOf(count) + n, count);
    }
    PrefixBits(e, n);
    assert (e + t)[1..count] == e[1..];
    assert (e + t)[count..] == t;
  }

  lemma {:induction false} VarIntCanonical(d: ByteSeq)
    requires DecodeVarInt(d).result.Ok?
    ensures d == EncodeVarInt(DecodeVarInt(d).result.value) + DecodeVarInt(d).rest
  {
    hide FromBigEndian, ToBigEndian, Pow256;
    var n := DecodeVarInt(d).result.value;
    var count := ByteCount(n);
    var head := d[..count];
    assert head[0] / 0x40 == count / 2;
    assert head[1..] == d[1..count];
    assert FromBigEndian([head[0] % 0x40] + head[1..]) == n;
    PrefixBits(head, n);
    CanonicalHead(head, n);
    assert d == head + d[count..];
  }

  lemma CanonicalHead(head: ByteSeq, n: nat)
    requires n <= MAX && |head| == ByteCount(n) && FromBigEndian(head) == PrefixOf(|head|) + n
    ensures head == EncodeVarInt(n)
  {
    FromBigEndianInverse(head);
  }
}
