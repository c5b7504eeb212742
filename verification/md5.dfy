/**
 The digest: the initial state, the fold of the compression function over
 the padded message, and the formatting of the final state as 32 lower-case
 hex digits. `Md5` is the streaming procedure `md5` in its own shape: a
 loop compressing whole blocks as they are read, then the final one or two
 blocks built in a 128-byte buffer.
 */
module Md5 {
  import opened Words
  import opened Hex
  import opened Compression
  import opened Padding

  /** The initial accumulators. */
  const Init: State := State(0x67452301, 0xefcdab89, 0x98badcfe, 0x10325476)

  /** The initial words are the ones section 3.3 of RFC 1321 lists low-order
      byte first: A = 01 23 45 67, B = 89 ab cd ef, C = fe dc ba 98,
      D = 76 54 32 10. */
  lemma InitBytes()
    ensures WordBytes(Init.a) == [0x01, 0x23, 0x45, 0x67]
    ensures WordBytes(Init.b) == [0x89, 0xab, 0xcd, 0xef]
    ensures WordBytes(Init.c) == [0xfe, 0xdc, 0xba, 0x98]
    ensures WordBytes(Init.d) == [0x76, 0x54, 0x32, 0x10]
  {
    WordBytesOfLeWord(0x01, 0x23, 0x45, 0x67);
    WordBytesOfLeWord(0x89, 0xab, 0xcd, 0xef);
    WordBytesOfLeWord(0xfe, 0xdc, 0xba, 0x98);
    WordBytesOfLeWord(0x76, 0x54, 0x32, 0x10);
  }

  /** The state after compressing the 64-byte blocks of data in order. */
  function Fold(st: State, data: seq<byte>): State
    requires |data| % 64 == 0
    decreases |data|
  {
    if |data| == 0 then st else Compress(Fold(st, data[..|data| - 64]), data[|data| - 64..])
  }

  /** Folding is streaming: the blocks may be compressed in two runs, the
      second starting from the state the first ends in. */
  lemma {:induction false} FoldAppend(st: State, x: seq<byte>, y: seq<byte>)
    requires |x| % 64 == 0 && |y| % 64 == 0
    ensures Fold(st, x + y) == Fold(Fold(st, x), y)
    decreases |y|
  {
    if |y| > 0 {
      var y' := y[..|y| - 64];
      assert (x + y)[..|x + y| - 64] == x + y';
      assert (x + y)[|x + y| - 64..] == y[|y| - 64..];
      FoldAppend(st, x, y');
    } else {
      assert x + y == x;
    }
  }

  /** A single block is one compression. */
  lemma FoldOne(st: State, block: seq<byte>)
    requires |block| == 64
    ensures Fold(st, block) == Compress(st, block)
  {
    assert block[..0] == [];
    assert block[0..] == block;
  }

  /** The output: each accumulator byte-swapped and printed as eight hex
      digits, A first. */
  function Format(st: State): (s: string)
    ensures |s| == 32 && IsLowerHex(s)
  {
    Hex32(SwapBytes(st.a)) + Hex32(SwapBytes(st.b)) + Hex32(SwapBytes(st.c)) + Hex32(SwapBytes(st.d))
  }

  /** Two hex digits per byte. */
  function HexBytes(bs: seq<byte>): (s: string)
    ensures |s| == 2 * |bs| && IsLowerHex(s)
  {
    if |bs| == 0 then "" else HexByte(bs[0]) + HexBytes(bs[1..])
  }

  /** The printed byte-swapped word is its four bytes in memory order, low
      byte first, two hex digits each. */
  lemma SwappedWordHex(w: word)
    ensures Hex32(SwapBytes(w)) == HexBytes(WordBytes(w))
  {
    var bs := WordBytes(w);
    Hex32OfBytes(SwapBytes(w));
    HexBytesOfFour(bs);
  }

  /** The eight hex digits of a word are the digits of its bytes, high byte
      first. */
  lemma Hex32OfBytes(v: word)
    ensures Hex32(v) == HexByte(WordBytes(v)[3]) + HexByte(WordBytes(v)[2])
      + HexByte(WordBytes(v)[1]) + HexByte(WordBytes(v)[0])
  {
    Byte3Digits(v);
    Byte2Digits(v);
    Byte1Digits(v);
    Byte0Digits(v);
    PairsConcat(Digit(v >> 28), Digit((v >> 24) & 0xF), Digit((v >> 20) & 0xF), Digit((v >> 16) & 0xF),
                Digit((v >> 12) & 0xF), Digit((v >> 8) & 0xF), Digit((v >> 4) & 0xF), Digit(v & 0xF));
  }

  /** The two digits of a byte are its high and low nibbles. */
  lemma ByteDigits(b: byte, hi: word, lo: word)
    requires (b as word) >> 4 == hi && (b as word) & 0xF == lo
    ensures HexByte(b) == [Digit(hi), Digit(lo)]
  {
  }

  /** The digits of the high byte of a word are its two top nibbles. */
  lemma Byte3Digits(v: word)
    ensures HexByte(WordBytes(v)[3]) == [Digit(v >> 28), Digit((v >> 24) & 0xF)]
  {
    ByteDigits(WordBytes(v)[3], v >> 28, (v >> 24) & 0xF);
  }

  /** The digits of byte 2 of a word. */
  lemma Byte2Digits(v: word)
    ensures HexByte(WordBytes(v)[2]) == [Digit((v >> 20) & 0xF), Digit((v >> 16) & 0xF)]
  {
    ByteDigits(WordBytes(v)[2], (v >> 20) & 0xF, (v >> 16) & 0xF);
  }

  /** The digits of byte 1 of a word. */
  lemma Byte1Digits(v: word)
    ensures HexByte(WordBytes(v)[1]) == [Digit((v >> 12) & 0xF), Digit((v >> 8) & 0xF)]
  {
    ByteDigits(WordBytes(v)[1], (v >> 12) & 0xF, (v >> 8) & 0xF);
  }

  /** The digits of the low byte of a word are its two bottom nibbles. */
  lemma Byte0Digits(v: word)
    ensures HexByte(WordBytes(v)[0]) == [Digit((v >> 4) & 0xF), Digit(v & 0xF)]
  {
    ByteDigits(WordBytes(v)[0], (v >> 4) & 0xF, v & 0xF);
  }

  /** Four two-character strings in a row. */
  lemma PairsConcat(c0: char, c1: char, c2: char, c3: char, c4: char, c5: char, c6: char, c7: char)
    ensures [c0, c1] + [c2, c3] + [c4, c5] + [c6, c7] == [c0, c1, c2, c3, c4, c5, c6, c7]
  {
  }

  /** The digits of four bytes. */
  lemma {:induction false} HexBytesOfFour(bs: seq<byte>)
    requires |bs| == 4
    ensures HexBytes(bs) == HexByte(bs[0]) + HexByte(bs[1]) + HexByte(bs[2]) + HexByte(bs[3])
  {
    assert bs[3..][1..] == [];
    assert bs[2..][1..] == bs[3..];
    assert bs[1..][1..] == bs[2..];
    assert HexBytes(bs[3..]) == HexByte(bs[3]) + HexBytes([]);
    assert HexBytes(bs[2..]) == HexByte(bs[2]) + HexBytes(bs[3..]);
    assert HexBytes(bs[1..]) == HexByte(bs[1]) + HexBytes(bs[2..]);
  }

  /** The output is the 16 state bytes A, B, C, D in memory order, low byte
      first, as section 3.5 of RFC 1321 orders the message digest. */
  lemma FormatIsDigestBytes(st: State)
    ensures Format(st) == HexBytes(WordBytes(st.a) + WordBytes(st.b) + WordBytes(st.c) + WordBytes(st.d))
  {
    SwappedWordHex(st.a);
    SwappedWordHex(st.b);
    SwappedWordHex(st.c);
    SwappedWordHex(st.d);
    var a, b, c, d := WordBytes(st.a), WordBytes(st.b), WordBytes(st.c), WordBytes(st.d);
    HexBytesAppend(a, b);
    HexBytesAppend(a + b, c);
    HexBytesAppend(a + b + c, d);
  }

  /** Hex-printing distributes over concatenation. */
  lemma {:induction false} HexBytesAppend(x: seq<byte>, y: seq<byte>)
    ensures HexBytes(x + y) == HexBytes(x) + HexBytes(y)
    decreases |x|
  {
    if |x| > 0 {
      assert (x + y)[1..] == x[1..] + y;
      HexBytesAppend(x[1..], y);
    } else {
      assert x + y == y;
    }
  }

  /** The state printed by a 32-digit lower-case hex string. */
  function ParseState(s: string): (st: State)
    requires |s| == 32 && IsLowerHex(s)
  {
    State(SwapBytes(Parse32(s[0..8])), SwapBytes(Parse32(s[8..16])),
          SwapBytes(Parse32(s[16..24])), SwapBytes(Parse32(s[24..32])))
  }

  /** Formatting loses nothing: the state can be read back. */
  lemma ParseFormat(st: State)
    ensures ParseState(Format(st)) == st
  {
    Quarters(Hex32(SwapBytes(st.a)), Hex32(SwapBytes(st.b)), Hex32(SwapBytes(st.c)), Hex32(SwapBytes(st.d)));
    Parse32OfHex32(SwapBytes(st.a));
    Parse32OfHex32(SwapBytes(st.b));
    Parse32OfHex32(SwapBytes(st.c));
    Parse32OfHex32(SwapBytes(st.d));
    SwapBytesInvolution(st.a);
    SwapBytesInvolution(st.b);
    SwapBytesInvolution(st.c);
    SwapBytesInvolution(st.d);
  }

  /** Every 32-digit lower-case hex string is the output for some state. */
  lemma FormatParse(s: string)
    requires |s| == 32 && IsLowerHex(s)
    ensures Format(ParseState(s)) == s
  {
    SwappedDigits(s[0..8]);
    SwappedDigits(s[8..16]);
    SwappedDigits(s[16..24]);
    SwappedDigits(s[24..32]);
    Reassemble(s);
  }

  /** A 32-character string is its four quarters in a row. */
  lemma Reassemble(s: string)
    requires |s| == 32
    ensures s == s[0..8] + s[8..16] + s[16..24] + s[24..32]
  {
    assert s == s[0..8] + s[8..16] + s[16..24] + s[24..32];
  }

  /** Eight digits read as a byte-swapped word print back as themselves. */
  lemma SwappedDigits(t: string)
    requires |t| == 8 && IsLowerHex(t)
    ensures Hex32(SwapBytes(SwapBytes(Parse32(t)))) == t
  {
    SwapBytesInvolution(Parse32(t));
    Hex32OfParse32(t);
  }

  /** The four eight-character quarters of a 32-character string. */
  lemma Quarters(x: string, y: string, z: string, w: string)
    requires |x| == 8 && |y| == 8 && |z| == 8 && |w| == 8
    ensures (x + y + z + w)[0..8] == x && (x + y + z + w)[8..16] == y
    ensures (x + y + z + w)[16..24] == z && (x + y + z + w)[24..32] == w
  {
  }

  /** The final state for a message, as RFC 1321 defines it: the
      compression function folded over the padded message from the initial
      state. */
  function FinalState(msg: seq<byte>): State
  {
    PadLayout(msg);
    Fold(Init, Pad(msg))
  }

  /** The MD5 digest of a message as `md5` prints it. */
  function Digest(msg: seq<byte>): string
  {
    Format(FinalState(msg))
  }

  /** `md5`: the message is read from a stream whose length is given; the
      stream is modelled as the sequence of its bytes. */
  method Md5(message: seq<byte>, length: nat) returns (hex: string)
    requires |message| == length
    ensures hex == Digest(message)
    ensures |hex| == 32 && IsLowerHex(hex)
  {
    var state, bytesLeft, blocks := BulkCompress(message, length);
    state := FinalCompress(state, message[length - bytesLeft..], length);
    FinalStateOfBlocks(message, blocks, state);
    hex := Format(state);
  }

  /** The bulk loop of `md5`: while at least 64 bytes are left, the next 64
      are read and compressed. It stops after length / 64 blocks with
      length % 64 bytes left, the state being the fold over the blocks read,
      in order. */
  method BulkCompress(message: seq<byte>, length: nat) returns (state: State, bytesLeft: nat, ghost blocks: nat)
    requires |message| == length
    ensures blocks == length / 64 && bytesLeft == length % 64
    ensures length - bytesLeft == 64 * blocks && (64 * blocks) % 64 == 0
    ensures state == Fold(Init, message[..64 * blocks])
  {
    state := Init;
    var pos := 0;
    bytesLeft := length;
    blocks := 0;
    while bytesLeft >= 64
      invariant pos + bytesLeft == length && pos == 64 * blocks && (64 * blocks) % 64 == 0
      invariant state == Fold(Init, message[..64 * blocks])
      decreases bytesLeft
    {
      var chunk := message[pos..pos + 64];
      FoldExtend(Init, message, blocks);
      state := ChunkedCompress(state, chunk);
      pos := pos + 64;
      bytesLeft := bytesLeft - 64;
      blocks := blocks + 1;
    }
    ModUnique(length, 64, blocks, bytesLeft);
  }

  /** The digest is the fold over the whole blocks continued over the final
      blocks built from the remaining tail. */
  lemma FinalStateOfBlocks(message: seq<byte>, blocks: nat, st: State)
    requires 64 * blocks <= |message| < 64 * blocks + 64
    requires (64 * blocks) % 64 == 0 && st == Fold(Fold(Init, message[..64 * blocks]),
                                                     FinalBlocks(message[64 * blocks..], |message|))
    ensures st == FinalState(message)
  {
    var pos := 64 * blocks;
    WholeBlocksOf(|message|, blocks);
    FoldAppend(Init, message[..pos], FinalBlocks(message[pos..], |message|));
    BlocksArePad(message);
  }

  /** The whole blocks of a length n are the 64 * blocks bytes that leave
      fewer than 64 over. */
  lemma WholeBlocksOf(n: nat, blocks: nat)
    requires 64 * blocks <= n < 64 * blocks + 64
    ensures n / 64 * 64 == 64 * blocks
  {
    ModUnique(n, 64, blocks, n - 64 * blocks);
  }

  /** The part of `md5` after the bulk loop: the unread tail is copied into a
      zeroed 128-byte buffer followed by 0x80; the bit length goes at 56 and
      one block is compressed when the tail has at most 64 - 9 bytes,
      otherwise two blocks are compressed with the bit length at 120. */
  method FinalCompress(state: State, tail: seq<byte>, length: nat) returns (r: State)
    requires |tail| < 64
    ensures |FinalBlocks(tail, length)| % 64 == 0
    ensures r == Fold(state, FinalBlocks(tail, length))
  {
    ghost var fin := FinalBlocks(tail, length);
    var buf := TailBuffer(tail);
    var bits := Le64(length * 8);
    FinalBlocksOfBuffer(tail, length);
    if |tail| <= 64 - 9 {
      buf := Splice(buf, 56, bits);
    }
    r := ChunkedCompress(state, buf[..64]);
    ghost var first := buf[..64];
    if |tail| > 64 - 9 {
      buf := Splice(buf, 120, bits);
      r := ChunkedCompress(r, buf[64..]);
      FoldAppend(state, first, buf[64..]);
      FoldOne(state, first);
      FoldOne(Compress(state, first), buf[64..]);
    } else {
      FoldOne(state, first);
    }
  }

  /** Compressing the next block of a message continues the fold. */
  lemma FoldExtend(st: State, message: seq<byte>, n: nat)
    requires 64 * n + 64 <= |message|
    ensures (64 * n) % 64 == 0 && (64 * n + 64) % 64 == 0
    ensures Fold(st, message[..64 * n + 64]) == Compress(Fold(st, message[..64 * n]), message[64 * n..64 * n + 64])
  {
    ModUnique(64 * n, 64, n, 0);
    ModUnique(64 * n + 64, 64, n + 1, 0);
    assert message[..64 * n + 64][..64 * n] == message[..64 * n];
    assert message[..64 * n + 64][64 * n..] == message[64 * n..64 * n + 64];
  }

  /** The final blocks as `md5` compresses them from the buffer: the first 64
      bytes are taken before the length field is written at 120, so they are
      the same whichever way the buffer is completed. */
  lemma FinalBlocksOfBuffer(tail: seq<byte>, length: nat)
    requires |tail| < 64
    ensures var buf, bits := TailBuffer(tail), Le64(length * 8);
      if |tail| <= 64 - 9 then FinalBlocks(tail, length) == Splice(buf, 56, bits)[..64]
      else FinalBlocks(tail, length) == buf[..64] + Splice(buf, 120, bits)[64..]
  {
    var buf, bits := TailBuffer(tail), Le64(length * 8);
    if |tail| > 64 - 9 {
      var sp := Splice(buf, 120, bits);
      assert sp[..64] == sp[..120][..64] == buf[..120][..64] == buf[..64];
      assert sp == sp[..64] + sp[64..];
    }
  }
}
