/**
 The MD5 compression function (`md5_chunked`): one 64-byte block is decoded
 into sixteen little-endian words, mixed into a copy of the four-word state
 by 64 rounds, and the result is added back to the state word by word.
 */
module Compression {
  import opened Words

  /** The four accumulators A, B, C, D. */
  datatype State = State(a: word, b: word, c: word, d: word)

  /** Left-rotation amount of each round, one quarter of the rounds per
      part. */
  const S: seq<word> :=
    [7, 12, 17, 22, 7, 12, 17, 22, 7, 12, 17, 22, 7, 12, 17, 22]
    + [5, 9, 14, 20, 5, 9, 14, 20, 5, 9, 14, 20, 5, 9, 14, 20]
    + [4, 11, 16, 23, 4, 11, 16, 23, 4, 11, 16, 23, 4, 11, 16, 23]
    + [6, 10, 15, 21, 6, 10, 15, 21, 6, 10, 15, 21, 6, 10, 15, 21]

  /** Additive constant of each round, one quarter of the rounds per part. */
  const K: seq<word> :=
    [0xd76aa478, 0xe8c7b756, 0x242070db, 0xc1bdceee, 0xf57c0faf, 0x4787c62a, 0xa8304613, 0xfd469501,
     0x698098d8, 0x8b44f7af, 0xffff5bb1, 0x895cd7be, 0x6b901122, 0xfd987193, 0xa679438e, 0x49b40821]
    + [0xf61e2562, 0xc040b340, 0x265e5a51, 0xe9b6c7aa, 0xd62f105d, 0x02441453, 0xd8a1e681, 0xe7d3fbc8,
     0x21e1cde6, 0xc33707d6, 0xf4d50d87, 0x455a14ed, 0xa9e3e905, 0xfcefa3f8, 0x676f02d9, 0x8d2a4c8a]
    + [0xfffa3942, 0x8771f681, 0x6d9d6122, 0xfde5380c, 0xa4beea44, 0x4bdecfa9, 0xf6bb4b60, 0xbebfbc70,
     0x289b7ec6, 0xeaa127fa, 0xd4ef3085, 0x04881d05, 0xd9d4d039, 0xe6db99e5, 0x1fa27cf8, 0xc4ac5665]
    + [0xf4292244, 0x432aff97, 0xab9423a7, 0xfc93a039, 0x655b59c3, 0x8f0ccc92, 0xffeff47d, 0x85845dd1,
     0x6fa87e4f, 0xfe2ce6e0, 0xa3014314, 0x4e0811a1, 0xf7537e82, 0xbd3af235, 0x2ad7d2bb, 0xeb86d391]

  /** The four nonlinear functions, one per quarter of the rounds. */
  datatype RoundFn = F | G | H | I

  /** What the round match selects: a function and a message-word index, or
      the panicking catch-all arm. */
  datatype Selection = Select(fn: RoundFn, g: nat) | Panic

  /** The function of the q-th quarter of the rounds. */
  function QuarterFn(q: nat): RoundFn
  {
    if q == 0 then F else if q == 1 then G else if q == 2 then H else I
  }

  /** The per-round match, including its panicking arm. */
  function SelectRound(i: nat): (r: Selection)
    ensures r.Select? <==> i < 64
    ensures r.Select? ==> r.fn == QuarterFn(i / 16) && r.g < 16
  {
    if i <= 15 then Select(F, i)
    else if i <= 31 then Select(G, (5 * i + 1) % 16)
    else if i <= 47 then Select(H, (3 * i + 5) % 16)
    else if i <= 63 then Select(I, 7 * i % 16)
    else Panic
  }

  /** Within each quarter the sixteen rounds read each message word exactly
      once: the first round of quarter q that reads word w. */
  function RoundReading(q: nat, w: nat): nat
    requires q < 4 && w < 16
  {
    if q == 0 then w
    else if q == 1 then 16 + (13 * w + 3) % 16
    else if q == 2 then 32 + (11 * w + 9) % 16
    else 48 + 7 * w % 16
  }

  /** Every message word is read in every quarter: the index map of a quarter
      is onto, hence a permutation of the sixteen words. */
  lemma EveryWordReadEachQuarter(q: nat, w: nat)
    requires q < 4 && w < 16
    ensures 16 * q <= RoundReading(q, w) < 16 * q + 16
    ensures SelectRound(RoundReading(q, w)).g == w
  {
    var i := RoundReading(q, w);
    if q == 1 {
      var k := (13 * w + 3) / 16;
      assert i == 16 + 13 * w + 3 - 16 * k;
      ModUnique(5 * i + 1, 16, 6 + 4 * w - 5 * k, w);
    } else if q == 2 {
      var k := (11 * w + 9) / 16;
      assert i == 32 + 11 * w + 9 - 16 * k;
      ModUnique(3 * i + 5, 16, 8 + 2 * w - 3 * k, w);
    } else if q == 3 {
      var k := 7 * w / 16;
      assert i == 48 + 7 * w - 16 * k;
      ModUnique(7 * i, 16, 21 + 3 * w - 7 * k, w);
    }
  }

  /** The nonlinear function applied to the working words b, c, d. */
  function Mix(fn: RoundFn, b: word, c: word, d: word): word
  {
    match fn
    case F => (b & c) | (!b & d)
    case G => (d & b) | (!d & c)
    case H => b ^ c ^ d
    case I => c ^ (b | !d)
  }

  /** The new value of b in every round: the selected function's value f,
      plus a, the round constant k and the message word mg, rotated left by s
      and added to b. */
  function RoundSum(f: word, a: word, b: word, k: word, mg: word, s: word): word
  {
    b + RotL(f + a + k + mg, s)
  }

  /** Round i on the working words (a, b, c, d) with message words m: the
      words move one place (a := d, d := c, c := b) and b gets the round sum. */
  function Step(i: nat, w: State, m: seq<word>): State
    requires i < 64 && |m| == 16
  {
    var sel := SelectRound(i);
    State(w.d, RoundSum(Mix(sel.fn, w.b, w.c, w.d), w.a, w.b, K[i], m[sel.g], S[i]), w.b, w.c)
  }

  /** The working words after the first n rounds. */
  function Rounds(w: State, m: seq<word>, n: nat): State
    requires n <= 64 && |m| == 16
  {
    if n == 0 then w else Step(n - 1, Rounds(w, m, n - 1), m)
  }

  /** The sixteen little-endian words of a block. */
  function DecodeWords(block: seq<byte>): (m: seq<word>)
    requires |block| == 64
    ensures |m| == 16
    ensures forall i :: 0 <= i < 16 ==> WordBytes(m[i]) == block[4 * i .. 4 * i + 4]
  {
    GroupImages(block);
    seq(16, i requires 0 <= i < 16 => LeWord(block[4 * i], block[4 * i + 1], block[4 * i + 2], block[4 * i + 3]))
  }

  /** Each four-byte group of a block is the image of the word it decodes to. */
  lemma GroupImages(block: seq<byte>)
    requires |block| == 64
    ensures forall i :: 0 <= i < 16 ==>
      WordBytes(LeWord(block[4 * i], block[4 * i + 1], block[4 * i + 2], block[4 * i + 3])) == block[4 * i .. 4 * i + 4]
  {
    forall i | 0 <= i < 16
      ensures WordBytes(LeWord(block[4 * i], block[4 * i + 1], block[4 * i + 2], block[4 * i + 3])) == block[4 * i .. 4 * i + 4]
    {
      WordBytesOfLeWord(block[4 * i], block[4 * i + 1], block[4 * i + 2], block[4 * i + 3]);
    }
  }

  /** Word-wise sum modulo 2^32. */
  function Add(x: State, y: State): State
  {
    State(x.a + y.a, x.b + y.b, x.c + y.c, x.d + y.d)
  }

  /** The compression function: 64 rounds, then feed-forward. */
  function Compress(st: State, block: seq<byte>): State
    requires |block| == 64
  {
    Add(st, Rounds(st, DecodeWords(block), 64))
  }

  /** `md5_chunked` in its imperative shape: a loop decoding the sixteen
      words, a loop applying the 64 rounds in order to working copies of the
      accumulators, and the final word-wise feed-forward. */
  method ChunkedCompress(st: State, chunk: seq<byte>) returns (r: State)
    requires |chunk| == 64
    ensures r == Compress(st, chunk)
  {
    var m: seq<word> := [];
    for i := 0 to 16
      invariant |m| == i
      invariant forall j :: 0 <= j < i ==> WordBytes(m[j]) == chunk[4 * j .. 4 * j + 4]
    {
      m := m + [LeWord(chunk[4 * i], chunk[4 * i + 1], chunk[4 * i + 2], chunk[4 * i + 3])];
      WordBytesOfLeWord(chunk[4 * i], chunk[4 * i + 1], chunk[4 * i + 2], chunk[4 * i + 3]);
    }
    DecodedWordsUnique(chunk, m);

    var w := st;
    for i := 0 to 64
      invariant w == Rounds(st, m, i)
    {
      w := Step(i, w, m);
    }
    r := Add(st, w);
  }

  /** The decoded words are determined by their byte images. */
  lemma DecodedWordsUnique(block: seq<byte>, m: seq<word>)
    requires |block| == 64 && |m| == 16
    requires forall j :: 0 <= j < 16 ==> WordBytes(m[j]) == block[4 * j .. 4 * j + 4]
    ensures m == DecodeWords(block)
  {
    var m' := DecodeWords(block);
    forall j | 0 <= j < 16
      ensures m[j] == m'[j]
    {
      var bs := WordBytes(m[j]);
      assert LeWord(bs[0], bs[1], bs[2], bs[3]) == m[j];
      var bs' := WordBytes(m'[j]);
      assert LeWord(bs'[0], bs'[1], bs'[2], bs'[3]) == m'[j];
    }
  }

  /** The little-endian byte image of a word sequence. */
  function EncodeWords(m: seq<word>): (bs: seq<byte>)
    ensures |bs| == 4 * |m|
  {
    if |m| == 0 then [] else WordBytes(m[0]) + EncodeWords(m[1..])
  }

  /** A byte sequence whose every four-byte group is the image of a word is
      the encoding of those words. */
  lemma {:induction false} EncodeWordsOfImages(m: seq<word>, bs: seq<byte>)
    requires |bs| == 4 * |m|
    requires forall j :: 0 <= j < |m| ==> WordBytes(m[j]) == bs[4 * j .. 4 * j + 4]
    ensures EncodeWords(m) == bs
  {
    if |m| > 0 {
      forall j | 0 <= j < |m| - 1
        ensures WordBytes(m[1..][j]) == bs[4..][4 * j .. 4 * j + 4]
      {
        assert WordBytes(m[j + 1]) == bs[4 * (j + 1) .. 4 * (j + 1) + 4];
      }
      EncodeWordsOfImages(m[1..], bs[4..]);
      assert WordBytes(m[0]) == bs[..4];
      assert bs == bs[..4] + bs[4..];
    }
  }

  /** Encoding the decoded words again gives back the block. */
  lemma EncodeDecodeWords(block: seq<byte>)
    requires |block| == 64
    ensures EncodeWords(DecodeWords(block)) == block
  {
    EncodeWordsOfImages(DecodeWords(block), block);
  }
}
