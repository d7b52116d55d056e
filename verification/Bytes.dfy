/** Byte strings, big-endian integers and the result type shared by every module. */
module Bytes {

  type Byte = b: int | 0 <= b < 256

  type ByteSeq = seq<Byte>

  datatype Option<+T> = None | Some(value: T)

  datatype Result<+T, +E> = Ok(value: T) | Err(error: E) {
    predicate IsFailure() {
      Err?
    }

    function PropagateFailure<U>(): Result<U, E>
      requires Err?
    {
      Err(error)
    }

    function Extract(): T
      requires Ok?
    {
      value
    }
  }

  /** 256 to the power `n`. */
  function Pow256(n: nat): (r: nat)
    ensures r >= 1
  {
    if n == 0 then 1 else 256 * Pow256(n - 1)
  }

  /** `to_be_bytes` of an unsigned integer of `width` bytes. */
  function ToBigEndian(n: nat, width: nat): (r: ByteSeq)
    requires n < Pow256(width)
    ensures |r| == width
  {
    if width == 0 then [] else ToBigEndian(n / 256, width - 1) + [n % 256]
  }

  /** `from_be_bytes`. */
  function FromBigEndian(bs: ByteSeq): (r: nat) {
    if |bs| == 0 then 0 else FromBigEndian(bs[..|bs| - 1]) * 256 + bs[|bs| - 1]
  }

  /** The two conversions are inverse to each other, on every width. */
  lemma {:induction false} BigEndianInverse(n: nat, width: nat)
    requires n < Pow256(width)
    ensures FromBigEndian(ToBigEndian(n, width)) == n
  {
    if width > 0 {
      BigEndianInverse(n / 256, width - 1);
      assert ToBigEndian(n, width)[..width - 1] == ToBigEndian(n / 256, width - 1);
    }
  }

  lemma {:induction false} FromBigEndianInverse(bs: ByteSeq)
    ensures FromBigEndian(bs) < Pow256(|bs|)
    ensures ToBigEndian(FromBigEndian(bs), |bs|) == bs
  {
    if |bs| > 0 {
      FromBigEndianInverse(bs[..|bs| - 1]);
      assert bs == bs[..|bs| - 1] + [bs[|bs| - 1]];
    }
  }

  lemma {:induction false} ToBigEndianInjective(m: nat, n: nat, width: nat)
    requires m < Pow256(width) && n < Pow256(width)
    requires ToBigEndian(m, width) == ToBigEndian(n, width)
    ensures m == n
  {
    BigEndianInverse(m, width);
    BigEndianInverse(n, width);
  }

  /** `s` is what is left of `d` after reading some bytes off its front. */
  ghost predicate IsSuffix(s: ByteSeq, d: ByteSeq) {
    |s| <= |d| && s == d[|d| - |s|..]
  }

  lemma SuffixTransitive(a: ByteSeq, b: ByteSeq, c: ByteSeq)
    requires IsSuffix(a, b) && IsSuffix(b, c)
    ensures IsSuffix(a, c)
  {
  }

  function Zeros(n: nat): (r: ByteSeq)
    ensures |r| == n && forall i :: 0 <= i < n ==> r[i] == 0
  {
    seq(n, _ => 0)
  }
}
