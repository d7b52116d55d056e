/** Sealing and opening with a sequence number (section 5.2 of RFC 9180), mls-rs-crypto-hpke/src/context.rs. */
module HpkeContexts {
  import opened Bits
  import opened Bytes
  import opened HpkeKdfs

  const U64: nat := 0x1_0000_0000_0000_0000

  /** Authenticated encryption of a provider (mls-rs-crypto-traits/src/aead.rs). */
  datatype Aead = Aead(
    id: nat,
    keySize: nat,
    nonceSize: nat,
    seal: (ByteSeq, ByteSeq, Option<ByteSeq>, ByteSeq) -> Output,   // key, plaintext, aad, nonce
    open: (ByteSeq, ByteSeq, Option<ByteSeq>, ByteSeq) -> Output)   // key, ciphertext, aad, nonce

  /** Opening what was sealed under the same key, data and nonce gives the plaintext. */
  ghost predicate AeadCorrect(a: Aead) {
    forall key, pt, aad, nonce ::
      a.seal(key, pt, aad, nonce).Ok? ==> a.open(key, a.seal(key, pt, aad, nonce).value, aad, nonce) == Ok(pt)
  }

  datatype HpkeError =
    | KemError(kem: ProviderError)
    | KdfError(kdf: ProviderError)
    | AeadError(aead: ProviderError)
    | InsufficientPskLength
    | IncorrectNonceLen(got: nat, want: nat)
    | IncorrectKeyLen(got: nat, want: nat)
    | ExportOnlyMode
    | SequenceNumberOverflow

  // ----- The nonce -----

  /** Byte `j` of `n` counted from the least significant one. */
  function Digit(n: nat, j: nat): Byte
    decreases j
  {
    if j == 0 then n % 256 else Digit(n / 256, j - 1)
  }

  function XorByte(a: Byte, b: Byte): Byte {
    assert Pow2(8) == 256 by { assert Pow2(4) == 16; }
    Xor(a, b, 8)
  }

  /** `to_le_bytes` of a 64-bit number: bytes 0 to 7. */
  function LittleEndian64(n: nat): (r: ByteSeq)
    ensures |r| == 8 && forall j :: 0 <= j < 8 ==> r[j] == Digit(n, j)
  {
    seq(8, j requires 0 <= j < 8 => Digit(n, j))
  }

  /** The nonce of sequence number `seqNumber`: the low bytes of the number into the last bytes of the base. */
  function Nonce(base: ByteSeq, seqNumber: nat): (r: ByteSeq)
    ensures |r| == |base|
    ensures forall i :: 0 <= i < |base| ==>
              r[i] == if |base| - 1 - i < 8 then XorByte(base[i], Digit(seqNumber, |base| - 1 - i)) else base[i]
  {
    seq(|base|, i requires 0 <= i < |base| =>
      if |base| - 1 - i < 8 then XorByte(base[i], Digit(seqNumber, |base| - 1 - i)) else base[i])
  }

  lemma {:induction false} BigEndianDigit(n: nat, width: nat, i: nat)
    requires n < Pow256(width) && i < width
    ensures ToBigEndian(n, width)[i] == Digit(n, width - 1 - i)
  {
    if i < width - 1 { BigEndianDigit(n / 256, width - 1, i); }
  }

  lemma {:induction false} HighDigitsAreZero(n: nat, k: nat, j: nat)
    requires n < Pow256(k) && k <= j
    ensures Digit(n, j) == 0
  {
    if j > 0 {
      if k == 0 { HighDigitsAreZero(n / 256, 0, j - 1); } else { HighDigitsAreZero(n / 256, k - 1, j - 1); }
    }
  }

  lemma U64IsPow256()
    ensures Pow256(8) == U64
  {
    assert Pow256(4) == 0x1_0000_0000 by { assert Pow256(2) == 65536 by { Pow256Two(); } }
    assert Pow256(6) == 0x1_0000_0000_0000 by { assert Pow256(5) == 0x100_0000_0000; }
    assert Pow256(7) == 256 * Pow256(6);
  }

  lemma {:induction false} Pow256Monotone(a: nat, b: nat)
    requires a <= b
    ensures Pow256(a) <= Pow256(b)
    decreases b
  {
    if a < b { Pow256Monotone(a, b - 1); }
  }

  /** Section 5.2: the nonce is the base nonce xor the sequence number written big-endian on the same length. */
  lemma {:induction false} NonceIsXor(base: ByteSeq, seqNumber: nat, i: nat)
    requires seqNumber < U64 && seqNumber < Pow256(|base|) && i < |base|
    ensures Nonce(base, seqNumber)[i] == XorByte(base[i], ToBigEndian(seqNumber, |base|)[i])
  {
    BigEndianDigit(seqNumber, |base|, i);
    var j := |base| - 1 - i;
    if j >= 8 {
      U64IsPow256();
      HighDigitsAreZero(seqNumber, 8, j);
      assert Pow2(8) == 256 by { assert Pow2(4) == 16; }
      XorZero(base[i], 8);
    }
  }

  lemma {:induction false} SameDigits(m: nat, n: nat, k: nat)
    requires m < Pow256(k) && n < Pow256(k) && forall j :: 0 <= j < k ==> Digit(m, j) == Digit(n, j)
    ensures m == n
  {
    if k > 0 {
      assert m % 256 == n % 256 by { assert Digit(m, 0) == Digit(n, 0); }
      forall j | 0 <= j < k - 1 ensures Digit(m / 256, j) == Digit(n / 256, j) {
        assert Digit(m, j + 1) == Digit(n, j + 1);
      }
      SameDigits(m / 256, n / 256, k - 1);
    }
  }

  /** With room for `k` bytes of the number, numbers below 256^k have different nonces. */
  lemma {:induction false} NonceInjective(base: ByteSeq, m: nat, n: nat, k: nat)
    requires k <= |base| && k <= 8 && m < Pow256(k) && n < Pow256(k)
    requires Nonce(base, m) == Nonce(base, n)
    ensures m == n
  {
    assert Pow2(8) == 256 by { assert Pow2(4) == 16; }
    forall j | 0 <= j < k ensures Digit(m, j) == Digit(n, j) {
      var i := |base| - 1 - j;
      assert Nonce(base, m)[i] == Nonce(base, n)[i];
      XorInjective(base[i], Digit(m, j), Digit(n, j), 8);
    }
    SameDigits(m, n, k);
  }

  lemma {:induction false} DigitsRepeat(n: nat, k: nat, j: nat)
    requires j < k
    ensures Digit(n + Pow256(k), j) == Digit(n, j)
  {
    assert (n + Pow256(k)) % 256 == n % 256 && (n + Pow256(k)) / 256 == n / 256 + Pow256(k - 1);
    if j > 0 { DigitsRepeat(n / 256, k - 1, j - 1); }
  }

  /** A nonce shorter than 8 bytes repeats after 256^length numbers, so the bound of `NonceInjective` is exact. */
  lemma {:induction false} ShortNonceRepeats(base: ByteSeq, n: nat)
    requires |base| < 8
    ensures Nonce(base, n + Pow256(|base|)) == Nonce(base, n)
  {
    forall i | 0 <= i < |base| ensures Nonce(base, n + Pow256(|base|))[i] == Nonce(base, n)[i] {
      DigitsRepeat(n, |base|, |base| - 1 - i);
    }
  }

  // ----- The context -----

  datatype Ctx = Ctx(baseNonce: ByteSeq, seqNumber: nat, aead: Aead, key: ByteSeq)

  /** What `EncryptionContext::new` guarantees, and that the number is a `u64`. */
  predicate ValidCtx(c: Ctx) {
    c.seqNumber < U64 && |c.baseNonce| == c.aead.nonceSize && |c.key| == c.aead.keySize
  }

  /** `EncryptionContext::new`. */
  function NewCtx(baseNonce: ByteSeq, aead: Aead, key: ByteSeq): (r: Result<Ctx, HpkeError>)
    ensures r.Ok? <==> |baseNonce| == aead.nonceSize && |key| == aead.keySize
    ensures r.Ok? ==> ValidCtx(r.value) && r.value == Ctx(baseNonce, 0, aead, key)
  {
    if |baseNonce| != aead.nonceSize then Err(IncorrectNonceLen(|baseNonce|, aead.nonceSize))
    else if |key| != aead.keySize then Err(IncorrectKeyLen(|key|, aead.keySize))
    else Ok(Ctx(baseNonce, 0, aead, key))
  }

  /** A successful call steps the number; at its maximum the call fails and the number stays. */
  function Stepped(c: Ctx, out: Output): (Ctx, Result<ByteSeq, HpkeError>) {
    if out.Err? then (c, Err(AeadError(out.error)))
    else if c.seqNumber + 1 >= U64 then (c, Err(SequenceNumberOverflow))
    else (c.(seqNumber := c.seqNumber + 1), Ok(out.value))
  }

  function Seal(c: Ctx, aad: Option<ByteSeq>, pt: ByteSeq): (Ctx, Result<ByteSeq, HpkeError>) {
    Stepped(c, c.aead.seal(c.key, pt, aad, Nonce(c.baseNonce, c.seqNumber)))
  }

  function Open(c: Ctx, aad: Option<ByteSeq>, ct: ByteSeq): (Ctx, Result<ByteSeq, HpkeError>) {
    Stepped(c, c.aead.open(c.key, ct, aad, Nonce(c.baseNonce, c.seqNumber)))
  }

  class EncryptionContext {
    const baseNonce: ByteSeq
    var seqNumber: nat
    const aead: Aead
    const key: ByteSeq

    ghost function Value(): Ctx
      reads this
    {
      Ctx(baseNonce, seqNumber, aead, key)
    }

    constructor (c: Ctx)
      ensures Value() == c
    {
      baseNonce, seqNumber, aead, key := c.baseNonce, c.seqNumber, c.aead, c.key;
    }

    /** `compute_nonce`: walk the nonce backwards against the little-endian bytes of the number. */
    method ComputeNonce() returns (nonce: ByteSeq)
      ensures nonce == Nonce(baseNonce, seqNumber)
    {
      hide XorByte;
      var n := |baseNonce|;
      var a := new Byte[n](i requires 0 <= i < n => baseNonce[i]);
      var le := LittleEndian64(seqNumber);
      var j := 0;
      while j < n && j < 8
        invariant 0 <= j <= n && j <= 8
        invariant forall i :: 0 <= i < n - j ==> a[i] == baseNonce[i]
        invariant forall i :: n - j <= i < n ==> a[i] == XorByte(baseNonce[i], Digit(seqNumber, n - 1 - i))
      {
        a[n - 1 - j] := XorByte(a[n - 1 - j], le[j]);
        j := j + 1;
      }
      nonce := a[..];
    }

    /** `increment_seq`. */
    method IncrementSeq() returns (res: Result<(), HpkeError>)
      modifies this`seqNumber
      ensures if old(seqNumber) + 1 < U64 then res.Ok? && seqNumber == old(seqNumber) + 1
              else res == Err(SequenceNumberOverflow) && seqNumber == old(seqNumber)
    {
      if seqNumber + 1 >= U64 { return Err(SequenceNumberOverflow); }
      seqNumber := seqNumber + 1;
      res := Ok(());
    }

    method SealNext(aad: Option<ByteSeq>, pt: ByteSeq) returns (res: Result<ByteSeq, HpkeError>)
      modifies this`seqNumber
      ensures (Value(), res) == Seal(old(Value()), aad, pt)
    {
      var nonce := ComputeNonce();
      var ct := aead.seal(key, pt, aad, nonce);
      if ct.Err? { return Err(AeadError(ct.error)); }
      var stepped := IncrementSeq();
      res := if stepped.Err? then Err(stepped.error) else Ok(ct.value);
    }

    method OpenNext(aad: Option<ByteSeq>, ct: ByteSeq) returns (res: Result<ByteSeq, HpkeError>)
      modifies this`seqNumber
      ensures (Value(), res) == Open(old(Value()), aad, ct)
    {
      var nonce := ComputeNonce();
      var pt := aead.open(key, ct, aad, nonce);
      if pt.Err? { return Err(AeadError(pt.error)); }
      var stepped := IncrementSeq();
      res := if stepped.Err? then Err(stepped.error) else Ok(pt.value);
    }
  }

  // ----- Runs of seals -----

  datatype Message = Message(aad: Option<ByteSeq>, text: ByteSeq)

  /** The context before the i-th call of a run. */
  function CtxAt(c: Ctx, msgs: seq<Message>, i: nat): Ctx
    requires i <= |msgs|
  {
    if i == 0 then c else Seal(CtxAt(c, msgs, i - 1), msgs[i - 1].aad, msgs[i - 1].text).0
  }

  function ResultAt(c: Ctx, msgs: seq<Message>, i: nat): Result<ByteSeq, HpkeError>
    requires i < |msgs|
  {
    Seal(CtxAt(c, msgs, i), msgs[i].aad, msgs[i].text).1
  }

  /** Calls among the first `n` that returned a ciphertext. */
  function Returned(c: Ctx, msgs: seq<Message>, n: nat): nat
    requires n <= |msgs|
  {
    if n == 0 then 0 else Returned(c, msgs, n - 1) + (if ResultAt(c, msgs, n - 1).Ok? then 1 else 0)
  }

  /** The number counts the ciphertexts returned, and never leaves its type. */
  lemma {:induction false} NumberCountsReturned(c: Ctx, msgs: seq<Message>, n: nat)
    requires ValidCtx(c) && n <= |msgs|
    ensures CtxAt(c, msgs, n) == c.(seqNumber := c.seqNumber + Returned(c, msgs, n))
    ensures ValidCtx(CtxAt(c, msgs, n))
  {
    if n > 0 { NumberCountsReturned(c, msgs, n - 1); }
  }

  lemma {:induction false} ReturnedMonotone(c: Ctx, msgs: seq<Message>, i: nat, j: nat)
    requires i <= j <= |msgs|
    ensures Returned(c, msgs, i) <= Returned(c, msgs, j)
    decreases j
  {
    if i < j { ReturnedMonotone(c, msgs, i, j - 1); }
  }

  /**
   Over any run of seals, failed ones included, the ciphertexts that were returned were made with
   pairwise different nonces, for nonces of at least 8 bytes.
   */
  lemma {:induction false} NoncesAreFresh(c: Ctx, msgs: seq<Message>, i: nat, j: nat)
    requires ValidCtx(c) && c.aead.nonceSize >= 8 && i < j < |msgs|
    requires ResultAt(c, msgs, i).Ok? && ResultAt(c, msgs, j).Ok?
    ensures Nonce(c.baseNonce, CtxAt(c, msgs, i).seqNumber) != Nonce(c.baseNonce, CtxAt(c, msgs, j).seqNumber)
  {
    NumberCountsReturned(c, msgs, i);
    NumberCountsReturned(c, msgs, j);
    ReturnedMonotone(c, msgs, i + 1, j);
    var m, n := CtxAt(c, msgs, i).seqNumber, CtxAt(c, msgs, j).seqNumber;
    assert m < n;
    U64IsPow256();
    if Nonce(c.baseNonce, m) == Nonce(c.baseNonce, n) { NonceInjective(c.baseNonce, m, n, 8); }
  }

  // ----- Delivery -----

  /** What reaches the receiver: the next ciphertext of the sender, or something of anyone's making. */
  datatype Delivery = Next | Forged(aad: Option<ByteSeq>, ct: ByteSeq)

  /** The receiver's answers, with `k` ciphertexts of the sender delivered so far. */
  function Received(r: Ctx, c: Ctx, msgs: seq<Message>, k: nat, schedule: seq<Delivery>)
    : seq<Result<ByteSeq, HpkeError>>
    requires k <= |msgs| && AllSealed(c, msgs)
    decreases |schedule|
  {
    if |schedule| == 0 then []
    else if schedule[0].Forged? then
      var o := Open(r, schedule[0].aad, schedule[0].ct);
      [o.1] + Received(o.0, c, msgs, k, schedule[1..])
    else if k == |msgs| then Received(r, c, msgs, k, schedule[1..])
    else
      var o := Open(r, msgs[k].aad, ResultAt(c, msgs, k).value);
      [o.1] + Received(o.0, c, msgs, k + 1, schedule[1..])
  }

  predicate AllSealed(c: Ctx, msgs: seq<Message>) {
    forall i :: 0 <= i < |msgs| ==> ResultAt(c, msgs, i).Ok?
  }

  /** The receiver's context at the end. */
  function ReceiverAfter(r: Ctx, c: Ctx, msgs: seq<Message>, k: nat, schedule: seq<Delivery>): Ctx
    requires k <= |msgs| && AllSealed(c, msgs)
    decreases |schedule|
  {
    if |schedule| == 0 then r
    else if schedule[0].Forged? then
      ReceiverAfter(Open(r, schedule[0].aad, schedule[0].ct).0, c, msgs, k, schedule[1..])
    else if k == |msgs| then ReceiverAfter(r, c, msgs, k, schedule[1..])
    else ReceiverAfter(Open(r, msgs[k].aad, ResultAt(c, msgs, k).value).0, c, msgs, k + 1, schedule[1..])
  }

  /** Everything forged is refused by the AEAD at the moment it arrives. */
  predicate ForgeriesFail(r: Ctx, c: Ctx, msgs: seq<Message>, k: nat, schedule: seq<Delivery>)
    requires k <= |msgs| && AllSealed(c, msgs)
    decreases |schedule|
  {
    if |schedule| == 0 then true
    else if schedule[0].Forged? then
      && r.aead.open(r.key, schedule[0].ct, schedule[0].aad, Nonce(r.baseNonce, r.seqNumber)).Err?
      && ForgeriesFail(Open(r, schedule[0].aad, schedule[0].ct).0, c, msgs, k, schedule[1..])
    else if k == |msgs| then ForgeriesFail(r, c, msgs, k, schedule[1..])
    else ForgeriesFail(Open(r, msgs[k].aad, ResultAt(c, msgs, k).value).0, c, msgs, k + 1, schedule[1..])
  }

  /** Ciphertexts of the sender that the schedule still delivers. */
  function Deliveries(schedule: seq<Delivery>, left: nat): (n: nat)
    ensures n <= left
    decreases |schedule|
  {
    if |schedule| == 0 || left == 0 then 0
    else if schedule[0].Next? then 1 + Deliveries(schedule[1..], left - 1)
    else Deliveries(schedule[1..], left)
  }

  /** The plaintexts among the answers. */
  function Accepted(answers: seq<Result<ByteSeq, HpkeError>>): seq<ByteSeq> {
    if |answers| == 0 then []
    else if answers[0].Ok? then [answers[0].value] + Accepted(answers[1..])
    else Accepted(answers[1..])
  }

  function Texts(msgs: seq<Message>): (r: seq<ByteSeq>)
    ensures |r| == |msgs| && forall i :: 0 <= i < |msgs| ==> r[i] == msgs[i].text
  {
    seq(|msgs|, i requires 0 <= i < |msgs| => msgs[i].text)
  }

  lemma {:induction false} AllReturned(c: Ctx, msgs: seq<Message>, n: nat)
    requires AllSealed(c, msgs) && n <= |msgs|
    ensures Returned(c, msgs, n) == n
  {
    if n > 0 { AllReturned(c, msgs, n - 1); }
  }

  /** A receiver in step with the sender opens the next ciphertext and stays in step. */
  lemma {:induction false} OpensNext(c: Ctx, msgs: seq<Message>, k: nat)
    requires ValidCtx(c) && AeadCorrect(c.aead) && AllSealed(c, msgs) && k < |msgs|
    ensures Open(CtxAt(c, msgs, k), msgs[k].aad, ResultAt(c, msgs, k).value)
            == (CtxAt(c, msgs, k + 1), Ok(msgs[k].text))
  {
    NumberCountsReturned(c, msgs, k);
    var s := CtxAt(c, msgs, k);
    var nonce := Nonce(s.baseNonce, s.seqNumber);
    var ct := s.aead.seal(s.key, msgs[k].text, msgs[k].aad, nonce);
    assert ResultAt(c, msgs, k).Ok?;
    assert ct.Ok?;
    assert s.aead.open(s.key, ct.value, msgs[k].aad, nonce) == Ok(msgs[k].text);
  }

  /**
   Whatever forgeries are mixed in, the receiver outputs the sender's plaintexts, in order and nothing
   else, and its number is the sender's number plus the messages accepted.
   */
  lemma {:induction false} DeliveryTheorem(c: Ctx, msgs: seq<Message>, k: nat, schedule: seq<Delivery>)
    requires ValidCtx(c) && AeadCorrect(c.aead) && AllSealed(c, msgs) && k <= |msgs|
    requires ForgeriesFail(CtxAt(c, msgs, k), c, msgs, k, schedule)
    ensures var n := k + Deliveries(schedule, |msgs| - k);
            && n <= |msgs|
            && Accepted(Received(CtxAt(c, msgs, k), c, msgs, k, schedule)) == Texts(msgs)[k..n]
            && ReceiverAfter(CtxAt(c, msgs, k), c, msgs, k, schedule) == c.(seqNumber := c.seqNumber + n)
    decreases |schedule|
  {
    hide CtxAt, ResultAt, Returned, Nonce, Open, Seal, Texts, AeadCorrect;
    var r := CtxAt(c, msgs, k);
    if |schedule| == 0 {
      AllReturned(c, msgs, k);
      NumberCountsReturned(c, msgs, k);
    } else if schedule[0].Forged? {
      RefusalKeeps(r, schedule[0].aad, schedule[0].ct);
      AcceptedCons(Open(r, schedule[0].aad, schedule[0].ct).1, Received(r, c, msgs, k, schedule[1..]));
      DeliveryTheorem(c, msgs, k, schedule[1..]);
    } else if k == |msgs| {
      DeliveryTheorem(c, msgs, k, schedule[1..]);
    } else {
      OpensNext(c, msgs, k);
      AcceptedCons(Ok(msgs[k].text), Received(CtxAt(c, msgs, k + 1), c, msgs, k + 1, schedule[1..]));
      DeliveryTheorem(c, msgs, k + 1, schedule[1..]);
      SliceCons(Texts(msgs), k, k + Deliveries(schedule, |msgs| - k));
    }
  }

  lemma RefusalKeeps(r: Ctx, aad: Option<ByteSeq>, ct: ByteSeq)
    requires r.aead.open(r.key, ct, aad, Nonce(r.baseNonce, r.seqNumber)).Err?
    ensures Open(r, aad, ct).0 == r && Open(r, aad, ct).1.Err?
  {
  }

  lemma AcceptedCons(a: Result<ByteSeq, HpkeError>, answers: seq<Result<ByteSeq, HpkeError>>)
    ensures Accepted([a] + answers) == (if a.Ok? then [a.value] else []) + Accepted(answers)
  {
    assert ([a] + answers)[1..] == answers;
  }

  lemma SliceCons(s: seq<ByteSeq>, i: nat, j: nat)
    requires i < j <= |s|
    ensures s[i..j] == [s[i]] + s[i + 1..j]
  {
  }
}
