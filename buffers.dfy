/**
 * The three in-place operations of Node's Buffer that deriveSecrets applies to its
 * scratch buffer, each stated by its effect on the whole array.
 */
module Buffers {
  import opened Primitives

  /** `buf` with `src` written over its first |src| bytes and the rest untouched. */
  function Overwrite(buf: seq<byte>, src: seq<byte>): (r: seq<byte>)
    requires |src| <= |buf|
    ensures |r| == |buf|
    ensures r[..|src|] == src && r[|src|..] == buf[|src|..]
  {
    src + buf[|src|..]
  }

  /** `buf` with the bytes of [start, end) set to `value`. */
  function Filled(buf: seq<byte>, value: byte, start: nat, end: nat): (r: seq<byte>)
    requires start <= end <= |buf|
    ensures |r| == |buf|
    ensures forall i :: 0 <= i < |buf| ==> r[i] == if start <= i < end then value else buf[i]
  {
    buf[..start] + seq(end - start, _ => value) + buf[end..]
  }

  /** `buf.fill(value, start, end)`. */
  method Fill(buf: array<byte>, value: byte, start: nat, end: nat)
    requires start <= end <= buf.Length
    modifies buf
    ensures buf[..] == Filled(old(buf[..]), value, start, end)
  {
    forall i | start <= i < end {
      buf[i] := value;
    }
  }

  /**
   * `source.copy(target, targetStart)`: copies as many leading bytes of `source` as
   * fit after `targetStart` and returns how many it copied.
   */
  method Copy(source: seq<byte>, target: array<byte>, targetStart: nat) returns (copied: nat)
    requires targetStart <= target.Length
    modifies target
    ensures copied == if |source| <= target.Length - targetStart then |source| else target.Length - targetStart
    ensures target[..] == old(target[..])[..targetStart] + source[..copied] + old(target[..])[targetStart + copied..]
  {
    copied := if |source| <= target.Length - targetStart then |source| else target.Length - targetStart;
    forall i | targetStart <= i < targetStart + copied {
      target[i] := source[i - targetStart];
    }
  }

  /**
   * `target.set(source)`: writes `source` at offset 0. The library throws a
   * RangeError when `source` does not fit; deriveSecrets never lets that happen.
   */
  method Set(target: array<byte>, source: seq<byte>)
    requires |source| <= target.Length
    modifies target
    ensures target[..] == Overwrite(old(target[..]), source)
  {
    forall i | 0 <= i < |source| {
      target[i] := source[i];
    }
  }

  /**
   * Writing a 32-byte block over the previous block of a scratch buffer laid out as
   * [previous block | info | counter] changes exactly bytes 0..31: the info bytes
   * and the counter byte keep their values.
   */
  lemma OverwriteKeepsInfo(prev: seq<byte>, block: seq<byte>, info: seq<byte>, counter: byte)
    requires |prev| == |block|
    ensures Overwrite(prev + info + [counter], block) == block + info + [counter]
    ensures forall i :: |block| <= i < |block| + |info| + 1 ==>
      Overwrite(prev + info + [counter], block)[i] == (prev + info + [counter])[i]
  {
    var buf := prev + info + [counter];
    assert buf[|prev|..] == info + [counter];
  }
}
