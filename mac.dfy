/**
 * verifyMAC(data, key, mac, length): recompute HMAC-SHA256(key, data), truncate it
 * to `length` bytes, reject any length mismatch, then compare the tags.
 */
module Mac {
  import opened Wrappers
  import opened Primitives

  /**
   * The end index Buffer.prototype.slice(0, end) uses on a buffer of `len` bytes:
   * a negative end counts back from the end (floored at 0), a large end is
   * clamped to `len`.
   */
  function SliceEnd(len: nat, end: int): (e: nat)
    ensures e <= len
    ensures 0 <= end <= len ==> e == end
    ensures end > len ==> e == len
    ensures end < 0 ==> e == if len + end < 0 then 0 else len + end
  {
    if end < 0 then (if len + end < 0 then 0 else len + end)
    else if end > len then len
    else end
  }

  /** `buf.slice(0, length)`. */
  function Truncate(buf: seq<byte>, length: int): (t: seq<byte>)
    ensures t <= buf
    ensures |t| == length <==> 0 <= length <= |buf|
  {
    buf[..SliceEnd(|buf|, length)]
  }

  /**
   * crypto.timingSafeEqual: byte-wise equality of two buffers of the same length
   * (the library throws for different lengths, which verifyMAC never passes).
   */
  function TimingSafeEqual(a: seq<byte>, b: seq<byte>): (eq: bool)
    requires |a| == |b|
    ensures eq <==> forall i :: 0 <= i < |a| ==> a[i] == b[i]
  {
    a == b
  }

  /** What verifyMAC returns normally (Pass) or throws. */
  function VerifyMac(hmac: Hmac, data: seq<byte>, key: seq<byte>, mac: seq<byte>, length: int): Outcome<CryptoError>
  {
    var calculatedMac := Truncate(hmac(key, data), length);
    if |mac| != length || |calculatedMac| != length then Fail(BadMacLength)
    else if !TimingSafeEqual(mac, calculatedMac) then Fail(BadMac)
    else Pass
  }

  /**
   * "Bad MAC length" is thrown exactly when the supplied tag is not `length` long or
   * `length` is not in [0, 32] (the truncated calculated MAC is then shorter), and
   * it wins over the comparison.
   */
  lemma BadLengthExactly(hmac: Hmac, data: seq<byte>, key: seq<byte>, mac: seq<byte>, length: int)
    ensures VerifyMac(hmac, data, key, mac, length) == Fail(BadMacLength)
        <==> |mac| != length || length < 0 || length > DigestLength
  {
  }

  /** A length above 32 fails on length even when `mac` is the full calculated MAC. */
  lemma LengthCheckedBeforeComparison(hmac: Hmac, data: seq<byte>, key: seq<byte>, length: int)
    requires length > DigestLength
    ensures Truncate(hmac(key, data), length) == hmac(key, data)
    ensures VerifyMac(hmac, data, key, hmac(key, data), length) == Fail(BadMacLength)
  {
  }

  /**
   * Once the lengths agree, verifyMAC returns normally exactly when `mac` is the
   * first `length` bytes of HMAC(key, data), and otherwise throws "Bad MAC".
   */
  lemma AcceptsExactlyTruncatedMac(hmac: Hmac, data: seq<byte>, key: seq<byte>, mac: seq<byte>, length: int)
    ensures VerifyMac(hmac, data, key, mac, length) == Pass
        <==> 0 <= length <= DigestLength && mac == hmac(key, data)[..length]
    ensures VerifyMac(hmac, data, key, mac, length) == Fail(BadMac)
        <==> |mac| == length && 0 <= length <= DigestLength && mac != hmac(key, data)[..length]
  {
  }

  /** Flipping any single bit of a correct tag makes verifyMAC throw "Bad MAC". */
  lemma RejectsBitFlip(hmac: Hmac, data: seq<byte>, key: seq<byte>, length: int, j: nat, bit: nat)
    requires 0 <= length <= DigestLength
    requires j < length && bit < 8
    ensures var good := hmac(key, data)[..length];
      VerifyMac(hmac, data, key, good, length) == Pass &&
      VerifyMac(hmac, data, key, good[j := good[j] ^ (1 << bit)], length) == Fail(BadMac)
  {
    var good := hmac(key, data)[..length];
    var flipped := good[j := good[j] ^ (1 << bit)];
    assert flipped[j] != good[j];
    AcceptsExactlyTruncatedMac(hmac, data, key, flipped, length);
  }
}
