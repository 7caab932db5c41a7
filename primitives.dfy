/**
 * The vocabulary shared by key derivation and MAC verification: bytes, the 32-byte
 * HMAC-SHA256 digest, the HMAC primitive itself (a parameter, never implemented
 * here) and the errors the module throws.
 */
module Primitives {
  import opened Wrappers

  type byte = bv8

  /** Length in bytes of an HMAC-SHA256 output. */
  const DigestLength: nat := 32

  /** An HMAC-SHA256 output: exactly 32 bytes. */
  type Digest = s: seq<byte> | |s| == DigestLength witness seq(32, _ => 0)

  /**
   * calculateMAC(key, data): HMAC-SHA256 keyed by the first argument over the
   * second. Nothing is assumed of it except that it is deterministic and that its
   * output is 32 bytes long.
   */
  type Hmac = (seq<byte>, seq<byte>) -> Digest

  /** One invocation of calculateMAC, recorded to state the order of the work done. */
  datatype MacCall = MacCall(key: seq<byte>, data: seq<byte>)

  /**
   * calculateMAC(key, data) as called by deriveSecrets: the digest, with the call
   * appended to a log of every HMAC invocation made so far.
   */
  method CalculateMac(hmac: Hmac, key: seq<byte>, data: seq<byte>, ghost calls: seq<MacCall>)
    returns (mac: Digest, ghost calls': seq<MacCall>)
    ensures mac == hmac(key, data)
    ensures calls' == calls + [MacCall(key, data)]
  {
    mac := hmac(key, data);
    calls' := calls + [MacCall(key, data)];
  }

  /** The errors thrown by deriveSecrets and verifyMAC. */
  datatype CryptoError =
    | SaltLengthError      // deriveSecrets: salt is not 32 bytes
    | ChunkCountAssertion  // deriveSecrets: assert(chunks >= 1 && chunks <= 3) failed
    | BadMacLength         // verifyMAC: supplied or truncated MAC has the wrong length
    | BadMac               // verifyMAC: the MACs differ

  /**
   * The message text of the thrown Error. A failed `assert` carries text that
   * Node generates from the asserted expression, so none is fixed here.
   */
  function ErrorMessage(e: CryptoError): Option<string> {
    match e
    case SaltLengthError => Some("Got salt of incorrect length")
    case ChunkCountAssertion => None
    case BadMacLength => Some("Bad MAC length")
    case BadMac => Some("Bad MAC")
  }
}
