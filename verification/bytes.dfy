/**
 Bytes and the 8-bit additive checksum of the serial framing protocol.

 Every byte on the wire, every message id, data length and table count of
 the server is an unsigned 8-bit value; the checksum is accumulated in an
 8-bit variable, so each addition wraps around modulo 256.
 */
module Bytes {

  /** An unsigned 8-bit value (`uint8_t`). */
  type uint8 = x: int | 0 <= x < 256

  /** `a += b` on two `uint8_t` values: the sum wraps around modulo 256. */
  function Add8(a: uint8, b: uint8): uint8
  {
    (a + b) % 256
  }

  /** The exact integer sum of a byte sequence, without any wrap-around. */
  function Sum(s: seq<uint8>): int
  {
    if |s| == 0 then 0 else s[0] + Sum(s[1..])
  }

  /** The checksum as the encoder and decoder loops compute it: starting from
      0x00, each byte in order is added with 8-bit wrap-around. */
  function Checksum(s: seq<uint8>): uint8
    decreases |s|
  {
    if |s| == 0 then 0 else Add8(Checksum(s[..|s| - 1]), s[|s| - 1])
  }

  /** One more loop iteration: adding byte `b` to the running checksum of `s`
      gives the checksum of `s + [b]`. */
  lemma ChecksumSnoc(s: seq<uint8>, b: uint8)
    ensures Checksum(s + [b]) == Add8(Checksum(s), b)
  {
    assert (s + [b])[..|s|] == s;
  }

  /** Removing the last byte from the exact sum. */
  lemma {:induction false} SumSnoc(s: seq<uint8>, b: uint8)
    ensures Sum(s + [b]) == Sum(s) + b
    decreases |s|
  {
    if |s| == 0 {
      assert s + [b] == [b];
    } else {
      assert (s + [b])[1..] == s[1..] + [b];
      SumSnoc(s[1..], b);
    }
  }

  /** The checksum byte is the sum of the bytes modulo 256. */
  lemma {:induction false} ChecksumIsSumMod256(s: seq<uint8>)
    ensures Checksum(s) == Sum(s) % 256
    decreases |s|
  {
    if |s| > 0 {
      var init, last := s[..|s| - 1], s[|s| - 1];
      assert s == init + [last];
      ChecksumIsSumMod256(init);
      SumSnoc(init, last);
      ModAddLeft(Sum(init), last);
    }
  }

  /** Reducing the left operand modulo 256 first does not change the sum's
      remainder. */
  lemma ModAddLeft(x: int, b: int)
    ensures (x % 256 + b) % 256 == (x + b) % 256
  {
    var q := x / 256;
    assert x == 256 * q + x % 256;
    assert x + b == 256 * q + (x % 256 + b);
    ModShift(x % 256 + b, q);
  }

  /** Adding a multiple of 256 does not change the remainder. */
  lemma ModShift(y: int, q: int)
    ensures (256 * q + y) % 256 == y % 256
  {
    var r := y % 256;
    var k := y / 256;
    assert y == 256 * k + r;
    assert 256 * q + y == 256 * (q + k) + r;
  }

  /** Two byte sequences of equal length that differ in exactly one position
      differ in their exact sum by exactly the difference at that position. */
  lemma {:induction false} SumDiffersAt(a: seq<uint8>, b: seq<uint8>, k: nat)
    requires |a| == |b| && k < |a|
    requires forall j :: 0 <= j < |a| && j != k ==> a[j] == b[j]
    ensures Sum(a) - Sum(b) == a[k] as int - b[k] as int
    decreases |a|
  {
    if k == 0 {
      assert a[1..] == b[1..];
    } else {
      SumDiffersAt(a[1..], b[1..], k - 1);
    }
  }

  /** The checksum detects every change confined to a single byte: two payloads
      of equal length differing at exactly one position have different
      checksums. */
  lemma ChecksumDetectsSingleByteChange(a: seq<uint8>, b: seq<uint8>, k: nat)
    requires |a| == |b| && k < |a| && a[k] != b[k]
    requires forall j :: 0 <= j < |a| && j != k ==> a[j] == b[j]
    ensures Checksum(a) != Checksum(b)
  {
    ChecksumIsSumMod256(a);
    ChecksumIsSumMod256(b);
    SumDiffersAt(a, b, k);
    ModDistinct(Sum(a), Sum(b));
  }

  /** Two integers closer than 256 apart, but not equal, leave different
      remainders modulo 256. */
  lemma ModDistinct(x: int, y: int)
    requires x != y && -256 < x - y < 256
    ensures x % 256 != y % 256
  {
    var qx, qy := x / 256, y / 256;
    assert x == 256 * qx + x % 256;
    assert y == 256 * qy + y % 256;
    assert x - y == 256 * (qx - qy) + (x % 256 - y % 256);
  }
}
