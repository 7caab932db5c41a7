/**
 * deriveSecrets: the bounded HKDF of RFC 5869 used by the library. Extract
 * (section 2.2 of RFC 5869) is an HMAC keyed by the salt over the input; Expand
 * (section 2.3) produces at most three 32-byte blocks T(1), T(2), T(3) with
 * T(k) = HMAC(PRK, T(k-1) | info | k) and T(0) empty.
 *
 * The functions state what the call returns; the method DeriveSecrets follows
 * the code, building every round's message in one scratch array.
 */
module Hkdf {
  import opened Wrappers
  import opened Primitives
  import opened Buffers

  const SaltLength: nat := 32
  /** Bytes reserved at the head of the scratch buffer for the previous block. */
  const InfoOffset: nat := 32
  const MaxChunks: nat := 3
  const DefaultChunks: nat := 3

  /**
   * `chunks || 3`: an absent or zero count means three; any other value, negative
   * ones included (they are truthy), is kept and left to the assertion.
   */
  function EffectiveChunks(chunks: Option<int>): (n: int)
    ensures chunks.None? || chunks.value == 0 ==> n == DefaultChunks
    ensures chunks.Some? && chunks.value != 0 ==> n == chunks.value
  {
    match chunks
    case None => DefaultChunks
    case Some(c) => if c == 0 then DefaultChunks else c
  }

  /** The assertion `chunks >= 1 && chunks <= 3`. */
  predicate ValidChunks(n: int) {
    1 <= n <= MaxChunks
  }

  /** The pseudorandom key: the salt is the HMAC key and the input the message. */
  function Prk(hmac: Hmac, salt: seq<byte>, input: seq<byte>): Digest {
    hmac(salt, input)
  }

  /** T(k) of RFC 5869 section 2.3, for k up to three; T(0) is empty. */
  function Block(hmac: Hmac, prk: seq<byte>, info: seq<byte>, k: nat): (t: seq<byte>)
    requires k <= MaxChunks
    ensures |t| == if k == 0 then 0 else DigestLength
    decreases k, 1
  {
    if k == 0 then [] else hmac(prk, Message(hmac, prk, info, k))
  }

  /**
   * The message HMAC'd in round k: T(k-1) | info | k. Round 1's is `info | 0x01`
   * alone; a later round's is the whole scratch buffer, the previous block in its
   * 32 reserved bytes followed by info and the counter.
   */
  function Message(hmac: Hmac, prk: seq<byte>, info: seq<byte>, k: nat): (m: seq<byte>)
    requires 1 <= k <= MaxChunks
    ensures k == 1 ==> m == info + [0x01]
    ensures k > 1 ==> |m| == InfoOffset + |info| + 1
    ensures k > 1 ==> m[..InfoOffset] == Block(hmac, prk, info, k - 1) && m[InfoOffset..] == info + [k as byte]
    decreases k, 0
  {
    Block(hmac, prk, info, k - 1) + info + [k as byte]
  }

  /** The first n blocks, T(1) .. T(n), in order. */
  function Expand(hmac: Hmac, prk: seq<byte>, info: seq<byte>, n: nat): (chunks: seq<Digest>)
    requires n <= MaxChunks
    ensures |chunks| == n
    decreases n
  {
    if n == 0 then [] else Expand(hmac, prk, info, n - 1) + [Block(hmac, prk, info, n)]
  }

  /** What deriveSecrets(input, salt, info, chunks) returns or throws. */
  function DeriveSecretsSpec(hmac: Hmac, input: seq<byte>, salt: seq<byte>, info: seq<byte>,
                             chunks: Option<int>): Result<seq<Digest>, CryptoError>
  {
    if |salt| != SaltLength then Failure(SaltLengthError)
    else if !ValidChunks(EffectiveChunks(chunks)) then Failure(ChunkCountAssertion)
    else Success(Expand(hmac, Prk(hmac, salt, input), info, EffectiveChunks(chunks)))
  }

  /** Element i of Expand is block T(i+1). */
  lemma {:induction false} ExpandAt(hmac: Hmac, prk: seq<byte>, info: seq<byte>, n: nat, i: nat)
    requires n <= MaxChunks && i < n
    ensures Expand(hmac, prk, info, n)[i] == Block(hmac, prk, info, i + 1)
    decreases n
  {
    if i < n - 1 {
      ExpandAt(hmac, prk, info, n - 1, i);
    }
  }

  /** Asking for fewer blocks yields a prefix of asking for more. */
  lemma {:induction false} ExpandPrefix(hmac: Hmac, prk: seq<byte>, info: seq<byte>, m: nat, n: nat)
    requires m <= n <= MaxChunks
    ensures Expand(hmac, prk, info, m) <= Expand(hmac, prk, info, n)
    decreases n
  {
    if m < n {
      ExpandPrefix(hmac, prk, info, m, n - 1);
    }
  }

  /** The salt length is checked first: a bad salt fails whatever `chunks` is. */
  lemma SaltCheckedFirst(hmac: Hmac, input: seq<byte>, salt: seq<byte>, info: seq<byte>, chunks: Option<int>)
    requires |salt| != SaltLength
    ensures DeriveSecretsSpec(hmac, input, salt, info, chunks) == Failure(SaltLengthError)
  {
  }

  /**
   * With a 32-byte salt the assertion fails exactly when `chunks` is given, is not
   * zero, and lies outside [1, 3]; otherwise the call succeeds.
   */
  lemma ChunkAssertionExactly(hmac: Hmac, input: seq<byte>, salt: seq<byte>, info: seq<byte>, chunks: Option<int>)
    requires |salt| == SaltLength
    ensures DeriveSecretsSpec(hmac, input, salt, info, chunks) == Failure(ChunkCountAssertion)
        <==> chunks.Some? && chunks.value != 0 && !(1 <= chunks.value <= 3)
    ensures DeriveSecretsSpec(hmac, input, salt, info, chunks).Success?
        <==> chunks.None? || 0 <= chunks.value <= 3
  {
  }

  /** A count of 0 behaves as an absent count (three blocks) while 4 fails the assertion. */
  lemma ZeroDefaultsFourFails(hmac: Hmac, input: seq<byte>, salt: seq<byte>, info: seq<byte>)
    requires |salt| == SaltLength
    ensures DeriveSecretsSpec(hmac, input, salt, info, Some(0)) == DeriveSecretsSpec(hmac, input, salt, info, None)
    ensures DeriveSecretsSpec(hmac, input, salt, info, Some(0)) == DeriveSecretsSpec(hmac, input, salt, info, Some(3))
    ensures DeriveSecretsSpec(hmac, input, salt, info, Some(4)) == Failure(ChunkCountAssertion)
  {
  }

  /** On success there are exactly as many chunks as requested, each 32 bytes. */
  lemma DerivedShape(hmac: Hmac, input: seq<byte>, salt: seq<byte>, info: seq<byte>, chunks: Option<int>)
    requires DeriveSecretsSpec(hmac, input, salt, info, chunks).Success?
    ensures var out := DeriveSecretsSpec(hmac, input, salt, info, chunks).value;
      |out| == EffectiveChunks(chunks) && 1 <= |out| <= 3 &&
      forall i :: 0 <= i < |out| ==> |out[i]| == DigestLength
  {
  }

  /**
   * The first chunk is HMAC(PRK, info | 0x01) with PRK = HMAC(salt, input): the 32
   * reserved bytes at the head of the scratch buffer are not part of its message.
   */
  lemma FirstChunk(hmac: Hmac, input: seq<byte>, salt: seq<byte>, info: seq<byte>, chunks: Option<int>)
    requires DeriveSecretsSpec(hmac, input, salt, info, chunks).Success?
    ensures DeriveSecretsSpec(hmac, input, salt, info, chunks).value[0] == hmac(hmac(salt, input), info + [0x01])
  {
    var prk := Prk(hmac, salt, input);
    ExpandAt(hmac, prk, info, EffectiveChunks(chunks), 0);
  }

  /** Every later chunk is HMAC(PRK, previous chunk | info | k) for k = 2, 3. */
  lemma NextChunk(hmac: Hmac, input: seq<byte>, salt: seq<byte>, info: seq<byte>, chunks: Option<int>, i: nat)
    requires DeriveSecretsSpec(hmac, input, salt, info, chunks).Success?
    requires 1 <= i < |DeriveSecretsSpec(hmac, input, salt, info, chunks).value|
    ensures var out := DeriveSecretsSpec(hmac, input, salt, info, chunks).value;
      out[i] == hmac(hmac(salt, input), out[i - 1] + info + [(i + 1) as byte])
  {
    var prk := Prk(hmac, salt, input);
    var n := EffectiveChunks(chunks);
    ExpandAt(hmac, prk, info, n, i);
    ExpandAt(hmac, prk, info, n, i - 1);
  }

  /**
   * Prefix stability: for the same input, salt and info, the chunks returned for a
   * smaller count are the leading chunks returned for a larger one.
   */
  lemma DerivePrefix(hmac: Hmac, input: seq<byte>, salt: seq<byte>, info: seq<byte>, fewer: Option<int>, more: Option<int>)
    requires DeriveSecretsSpec(hmac, input, salt, info, fewer).Success?
    requires DeriveSecretsSpec(hmac, input, salt, info, more).Success?
    requires EffectiveChunks(fewer) <= EffectiveChunks(more)
    ensures DeriveSecretsSpec(hmac, input, salt, info, fewer).value <= DeriveSecretsSpec(hmac, input, salt, info, more).value
  {
    ExpandPrefix(hmac, Prk(hmac, salt, input), info, EffectiveChunks(fewer), EffectiveChunks(more));
  }

  /**
   * The first round of deriveSecrets: the scratch buffer becomes 32 zero bytes,
   * then info, then the counter 1, and only the part after the 32 reserved bytes
   * is HMAC'd. The call is appended to the log `calls`.
   */
  method FirstRound(hmac: Hmac, prk: seq<byte>, info: seq<byte>, infoArray: array<byte>, ghost calls: seq<MacCall>)
    returns (block: Digest, ghost calls': seq<MacCall>)
    requires infoArray.Length == InfoOffset + |info| + 1
    modifies infoArray
    ensures infoArray[..] == seq(InfoOffset, _ => 0) + info + [1]
    ensures infoArray[InfoOffset..] == Message(hmac, prk, info, 1)
    ensures calls' == calls + [MacCall(prk, Message(hmac, prk, info, 1))]
    ensures block == hmac(prk, Message(hmac, prk, info, 1))
    ensures [block] == Expand(hmac, prk, info, 1)
  {
    Fill(infoArray, 0, 0, InfoOffset);
    var copied := Copy(info, infoArray, InfoOffset);
    infoArray[infoArray.Length - 1] := 1;
    assert infoArray[..] == seq(InfoOffset, _ => 0) + info + [1];
    assert infoArray[InfoOffset..] == info + [1];
    block, calls' := CalculateMac(hmac, prk, infoArray[InfoOffset..], calls);
  }

  /**
   * One later round of deriveSecrets: the last chunk is written over the head of the
   * scratch buffer, the counter byte becomes k, and the whole buffer is HMAC'd. On
   * return the buffer holds round k's message T(k-1) | info | k, and the call is
   * appended to the log `calls`.
   */
  method NextRound(hmac: Hmac, prk: seq<byte>, info: seq<byte>, infoArray: array<byte>, signed: seq<Digest>,
                   ghost calls: seq<MacCall>)
    returns (block: Digest, ghost calls': seq<MacCall>)
    requires 1 <= |signed| < MaxChunks
    requires signed == Expand(hmac, prk, info, |signed|)
    requires infoArray.Length == InfoOffset + |info| + 1
    requires infoArray[InfoOffset..] == info + [|signed| as byte]
    modifies infoArray
    ensures infoArray[..] == Message(hmac, prk, info, |signed| + 1)
    ensures calls' == calls + [MacCall(prk, Message(hmac, prk, info, |signed| + 1))]
    ensures block == hmac(prk, infoArray[..])
    ensures signed + [block] == Expand(hmac, prk, info, |signed| + 1)
  {
    ghost var before := infoArray[..];
    assert before == before[..InfoOffset] + info + [|signed| as byte] by {
      assert before == before[..InfoOffset] + before[InfoOffset..];
    }
    Set(infoArray, signed[|signed| - 1]);
    OverwriteKeepsInfo(before[..InfoOffset], signed[|signed| - 1], info, |signed| as byte);
    infoArray[infoArray.Length - 1] := (|signed| + 1) as byte;
    ExpandAt(hmac, prk, info, |signed|, |signed| - 1);
    assert infoArray[..] == signed[|signed| - 1] + info + [(|signed| + 1) as byte];
    block, calls' := CalculateMac(hmac, prk, infoArray[..], calls);
  }

  /**
   * deriveSecrets as the code runs it: the rounds' messages are built in one scratch
   * buffer [32-byte previous block | info | counter], which is overwritten in place
   * between rounds. Every HMAC goes through CalculateMac, so `calls` is the complete
   * log of calculateMAC invocations, in order.
   */
  method DeriveSecrets(hmac: Hmac, input: seq<byte>, salt: seq<byte>, info: seq<byte>, chunks: Option<int>)
    returns (r: Result<seq<Digest>, CryptoError>, ghost calls: seq<MacCall>)
    ensures r == DeriveSecretsSpec(hmac, input, salt, info, chunks)
    ensures r.Failure? ==> calls == []
    ensures r.Success? ==> |calls| == |r.value| + 1 && calls[0] == MacCall(salt, input)
    ensures r.Success? ==> forall k :: 1 <= k <= |r.value| ==>
      calls[k] == MacCall(hmac(salt, input), Message(hmac, hmac(salt, input), info, k))
  {
    calls := [];
    if |salt| != SaltLength {
      return Failure(SaltLengthError), calls;
    }
    var n := EffectiveChunks(chunks);
    if !ValidChunks(n) {
      return Failure(ChunkCountAssertion), calls;
    }
    var prk;
    prk, calls := CalculateMac(hmac, salt, input, calls);

    var infoArray := new byte[|info| + 1 + InfoOffset];
    var first;
    first, calls := FirstRound(hmac, prk, info, infoArray, calls);
    var signed := [first];

    if n > 1 {
      var block;
      block, calls := NextRound(hmac, prk, info, infoArray, signed, calls);
      signed := signed + [block];
    }
    if n > 2 {
      var block;
      block, calls := NextRound(hmac, prk, info, infoArray, signed, calls);
      signed := signed + [block];
    }
    r := Success(signed);
  }
}
