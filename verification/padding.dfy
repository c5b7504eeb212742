/**
 Message padding. RFC 1321 (sections 3.1 and 3.2) defines the padded
 message: the message, one 0x80 byte, the fewest zero bytes that bring the
 length to 56 modulo 64, and the bit length of the message as 8
 little-endian bytes. `md5` never builds that sequence: it compresses the
 whole 64-byte blocks straight from the reader and then builds the last one
 or two blocks in a zeroed 128-byte buffer. This module states both and
 proves that the blocks `md5` compresses are exactly the padded message.
 */
module Padding {
  import opened Words

  /** The number of zero bytes between the 0x80 byte and the length field. */
  function ZeroCount(n: nat): (z: nat)
    ensures z < 64
    ensures (n + 1 + z + 8) % 64 == 0
  {
    (55 - n) % 64
  }

  /** The padded message of RFC 1321. */
  function Pad(msg: seq<byte>): (r: seq<byte>)
  {
    msg + [0x80] + Zeros(ZeroCount(|msg|)) + Le64(8 * |msg|)
  }

  /** The layout of the padded message: a whole number of 64-byte blocks
      holding the message, a single 0x80 byte, between 0 and 63 zero bytes,
      and the message's bit length modulo 2^64 in the last 8 bytes. */
  lemma PadLayout(msg: seq<byte>)
    ensures |Pad(msg)| % 64 == 0
    ensures |msg| + 9 <= |Pad(msg)| < |msg| + 73
    ensures Pad(msg)[..|msg|] == msg
    ensures Pad(msg)[|msg|] == 0x80
    ensures forall i :: |msg| < i < |Pad(msg)| - 8 ==> Pad(msg)[i] == 0
    ensures Pad(msg)[|Pad(msg)| - 8..] == Le64(8 * |msg|)
    ensures FromLe(Pad(msg)[|Pad(msg)| - 8..]) == 8 * |msg| % TwoTo64
  {
    var r := Pad(msg);
    var z := ZeroCount(|msg|);
    assert r == msg + ([0x80] + Zeros(z) + Le64(8 * |msg|));
    forall i | |msg| < i < |r| - 8
      ensures r[i] == 0
    {
      assert r[i] == Zeros(z)[i - |msg| - 1];
    }
  }

  /** The padded message holds |msg| / 64 + 1 blocks when the last partial
      block leaves room for the 0x80 byte and the length field (at most 55
      bytes), and one block more otherwise. */
  lemma PadBlockCount(msg: seq<byte>)
    ensures |Pad(msg)| / 64 == |msg| / 64 + (if |msg| % 64 <= 55 then 1 else 2)
  {
    var n, r := |msg| / 64, |msg| % 64;
    var z := ZeroCount(|msg|);
    if r <= 55 {
      ModUnique(55 - |msg| + 64 * (n + 1), 64, n + 1 - n, 55 - r);
      assert z == 55 - r;
      assert |Pad(msg)| == 64 * (n + 1);
    } else {
      assert z == 119 - r;
      assert |Pad(msg)| == 64 * (n + 2);
    }
  }

  /** The buffer with `bytes` written over positions at .. at + |bytes|
      (`clone_from_slice` on a sub-slice). */
  function Splice(buf: seq<byte>, at: nat, bytes: seq<byte>): (r: seq<byte>)
    requires at + |bytes| <= |buf|
    ensures |r| == |buf|
    ensures r[..at] == buf[..at]
    ensures r[at..at + |bytes|] == bytes
    ensures r[at + |bytes|..] == buf[at + |bytes|..]
  {
    buf[..at] + bytes + buf[at + |bytes|..]
  }

  /** The zeroed 128-byte buffer after the unread tail has been copied to its
      front and the 0x80 byte written right after it. */
  function TailBuffer(tail: seq<byte>): (buf: seq<byte>)
    requires |tail| < 64
    ensures |buf| == 128
    ensures buf[..|tail|] == tail
    ensures buf[|tail|] == 0x80
    ensures forall i :: |tail| < i < 128 ==> buf[i] == 0
  {
    (tail + Zeros(128 - |tail|))[|tail| := 0x80]
  }

  /** The final blocks `md5` compresses for an unread tail of fewer than 64
      bytes of a message of the given length: the first 64 bytes of the
      buffer with the length field at 56 when the tail has at most 64 - 9
      bytes, otherwise the whole buffer with the length field at 120. */
  function FinalBlocks(tail: seq<byte>, length: nat): (r: seq<byte>)
    requires |tail| < 64
    ensures |r| == (if |tail| <= 64 - 9 then 64 else 128)
    ensures |r| % 64 == 0
  {
    var buf := TailBuffer(tail);
    var bits := Le64(length * 8);
    if |tail| <= 64 - 9 then Splice(buf, 56, bits)[..64] else Splice(buf, 120, bits)
  }

  /** The whole blocks read from the message followed by the final blocks are
      the padded message. */
  lemma BlocksArePad(msg: seq<byte>)
    ensures msg[..|msg| / 64 * 64] + FinalBlocks(msg[|msg| / 64 * 64..], |msg|) == Pad(msg)
  {
    var k := |msg| / 64 * 64;
    var lhs := msg[..k] + FinalBlocks(msg[k..], |msg|);
    PadBlockCount(msg);
    assert |Pad(msg)| == |lhs|;
    forall i | 0 <= i < |lhs|
      ensures lhs[i] == Pad(msg)[i]
    {
      BlocksArePadAt(msg, k, i);
    }
  }

  /** Byte i of the whole blocks followed by the final blocks. */
  lemma BlocksArePadAt(msg: seq<byte>, k: nat, i: nat)
    requires k <= |msg| < k + 64
    requires |Pad(msg)| == k + |FinalBlocks(msg[k..], |msg|)| && i < |Pad(msg)|
    ensures (msg[..k] + FinalBlocks(msg[k..], |msg|))[i] == Pad(msg)[i]
  {
    var tail := msg[k..];
    var lhs := msg[..k] + FinalBlocks(tail, |msg|);
    PadLayout(msg);
    if i < k {
      assert lhs[i] == msg[i];
    } else {
      FinalByte(tail, |msg|, i - k);
      if i < |msg| {
        assert Pad(msg)[i] == msg[i];
      }
    }
  }

  /** Byte j of the final blocks. */
  lemma FinalByte(tail: seq<byte>, length: nat, j: nat)
    requires |tail| < 64 && j < |FinalBlocks(tail, length)|
    ensures j < |tail| ==> FinalBlocks(tail, length)[j] == tail[j]
    ensures j == |tail| ==> FinalBlocks(tail, length)[j] == 0x80
    ensures |tail| < j < |FinalBlocks(tail, length)| - 8 ==> FinalBlocks(tail, length)[j] == 0
    ensures |FinalBlocks(tail, length)| - 8 <= j ==>
      FinalBlocks(tail, length)[j] == Le64(length * 8)[j - (|FinalBlocks(tail, length)| - 8)]
  {
    var buf := TailBuffer(tail);
    var bits := Le64(length * 8);
    var end := if |tail| <= 64 - 9 then 64 else 128;
    var sp := Splice(buf, end - 8, bits);
    if j < end - 8 {
      assert sp[j] == sp[..end - 8][j] == buf[..end - 8][j] == buf[j];
      if j < |tail| {
        assert buf[j] == buf[..|tail|][j];
      }
    } else {
      assert sp[j] == sp[end - 8..end][j - (end - 8)];
    }
  }
}
