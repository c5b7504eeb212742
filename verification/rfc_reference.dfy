/**
 A second statement of the MD5 compression function in the form of section
 3.4 of RFC 1321: four auxiliary functions F, G, H, I, the message word index
 and shift of each of the 64 operations written out as tables, and sixteen
 groups of four operations [abcd k s i] that update the four words under
 fixed names rather than rotating them. The lemmas prove that the
 rotating-variable rounds of the compression function compute the same
 state. Word decoding, the word-wise sum, the table T (the table K) and the
 rotation are taken from the model; `RotLAtShift` proves separately that the
 model's rotation by S[i] is the circular shift <<< by the listed shift,
 written with the built-in bit-vector rotation.
 */
module RfcReference {
  import opened Words
  import opened Compression

  /** The auxiliary functions of section 3.4 of RFC 1321. */
  function AuxF(x: word, y: word, z: word): word { (x & y) | (!x & z) }
  function AuxG(x: word, y: word, z: word): word { (x & z) | (y & !z) }
  function AuxH(x: word, y: word, z: word): word { x ^ y ^ z }
  function AuxI(x: word, y: word, z: word): word { y ^ (x | !z) }

  /** The auxiliary function of round r (0 to 3). */
  function Aux(r: nat, x: word, y: word, z: word): word
  {
    if r == 0 then AuxF(x, y, z)
    else if r == 1 then AuxG(x, y, z)
    else if r == 2 then AuxH(x, y, z)
    else AuxI(x, y, z)
  }

  /** The message word index k of each operation, in the order listed. */
  const WordIndex: seq<nat> :=
    [0, 1, 2, 3, 4, 5, 6, 7, 8, 9, 10, 11, 12, 13, 14, 15]
    + [1, 6, 11, 0, 5, 10, 15, 4, 9, 14, 3, 8, 13, 2, 7, 12]
    + [5, 8, 11, 14, 1, 4, 7, 10, 13, 0, 3, 6, 9, 12, 15, 2]
    + [0, 7, 14, 5, 12, 3, 10, 1, 8, 15, 6, 13, 4, 11, 2, 9]

  /** The shift s of operation i: S11..S14, S21..S24, S31..S34, S41..S44. */
  function Shift(i: nat): word
  {
    var r, p := i / 16, i % 4;
    if r == 0 then (if p == 0 then 7 else if p == 1 then 12 else if p == 2 then 17 else 22)
    else if r == 1 then (if p == 0 then 5 else if p == 1 then 9 else if p == 2 then 14 else 20)
    else if r == 2 then (if p == 0 then 4 else if p == 1 then 11 else if p == 2 then 16 else 23)
    else (if p == 0 then 6 else if p == 1 then 10 else if p == 2 then 15 else 21)
  }

  /** x <<< s for the shift s of operation i: the circular left shift of
      section 2 of RFC 1321, one literal amount per listed shift. */
  function Rotate(i: nat, x: word): word
  {
    var r, p := i / 16, i % 4;
    if r == 0 then (if p == 0 then x.RotateLeft(7) else if p == 1 then x.RotateLeft(12) else if p == 2 then x.RotateLeft(17) else x.RotateLeft(22))
    else if r == 1 then (if p == 0 then x.RotateLeft(5) else if p == 1 then x.RotateLeft(9) else if p == 2 then x.RotateLeft(14) else x.RotateLeft(20))
    else if r == 2 then (if p == 0 then x.RotateLeft(4) else if p == 1 then x.RotateLeft(11) else if p == 2 then x.RotateLeft(16) else x.RotateLeft(23))
    else (if p == 0 then x.RotateLeft(6) else if p == 1 then x.RotateLeft(10) else if p == 2 then x.RotateLeft(15) else x.RotateLeft(21))
  }

  /** The operation [abcd k s i], given the value f of the round's auxiliary
      function on b, c, d, the message word X[k], the shift s and T[i]:
      a = b + ((a + f + X[k] + T[i]) <<< s). */
  function Op(a: word, b: word, f: word, xk: word, s: word, t: word): word
  {
    b + RotL(a + f + xk + t, s)
  }

  /** Operation i of the listing, reading its word index, shift and sine
      table entry; the table T is the table K of the compression function. */
  function OpAt(i: nat, a: word, b: word, c: word, d: word, x: seq<word>): word
    requires i < 64 && |x| == 16
  {
    IndexInRange(i);
    Op(a, b, Aux(i / 16, b, c, d), x[WordIndex[i]], Shift(i), K[i])
  }

  /** Group j: [ABCD k s i] [DABC k s i] [CDAB k s i] [BCDA k s i]. */
  function Group(j: nat, st: State, x: seq<word>): State
    requires j < 16 && |x| == 16
  {
    var i := 4 * j;
    var a := OpAt(i, st.a, st.b, st.c, st.d, x);
    var d := OpAt(i + 1, st.d, a, st.b, st.c, x);
    var c := OpAt(i + 2, st.c, d, a, st.b, x);
    var b := OpAt(i + 3, st.b, c, d, a, x);
    State(a, b, c, d)
  }

  /** The state after the first n groups. */
  function Groups(st: State, x: seq<word>, n: nat): State
    requires n <= 16 && |x| == 16
  {
    if n == 0 then st else Group(n - 1, Groups(st, x, n - 1), x)
  }

  /** The compression of one block as RFC 1321 section 3.4 states it. */
  function RfcCompress(st: State, block: seq<byte>): State
    requires |block| == 64
  {
    Add(st, Groups(st, DecodeWords(block), 16))
  }

  /** Every listed word index names one of the sixteen words. */
  lemma IndexInRange(i: nat)
    requires i < 64
    ensures WordIndex[i] < 16
  {
    TablesAgree(i);
  }

  /** The compression function's round tables agree with the listing of
      section 3.4: the message word each round reads and its shift. */
  lemma TablesAgree(i: nat)
    requires i < 64
    ensures SelectRound(i).g == WordIndex[i]
    ensures S[i] == Shift(i)
  {
    if i < 8 { TablesAgreeFrom0(i); }
    else if i < 16 { TablesAgreeFrom8(i); }
    else if i < 24 { TablesAgreeFrom16(i); }
    else if i < 32 { TablesAgreeFrom24(i); }
    else if i < 40 { TablesAgreeFrom32(i); }
    else if i < 48 { TablesAgreeFrom40(i); }
    else if i < 56 { TablesAgreeFrom48(i); }
    else { TablesAgreeFrom56(i); }
  }

  /** The tables agree on the first half of round 1. */
  lemma TablesAgreeFrom0(i: nat)
    requires 0 <= i < 8
    ensures SelectRound(i).g == WordIndex[i]
    ensures S[i] == Shift(i)
  {
    assert i == 0 || i == 1 || i == 2 || i == 3 || i == 4 || i == 5 || i == 6 || i == 7;
  }

  /** The tables agree on the second half of round 1. */
  lemma TablesAgreeFrom8(i: nat)
    requires 8 <= i < 16
    ensures SelectRound(i).g == WordIndex[i]
    ensures S[i] == Shift(i)
  {
    assert i == 8 || i == 9 || i == 10 || i == 11 || i == 12 || i == 13 || i == 14 || i == 15;
  }

  /** The tables agree on the first half of round 2. */
  lemma TablesAgreeFrom16(i: nat)
    requires 16 <= i < 24
    ensures SelectRound(i).g == WordIndex[i]
    ensures S[i] == Shift(i)
  {
    assert i == 16 || i == 17 || i == 18 || i == 19 || i == 20 || i == 21 || i == 22 || i == 23;
  }

  /** The tables agree on the second half of round 2. */
  lemma TablesAgreeFrom24(i: nat)
    requires 24 <= i < 32
    ensures SelectRound(i).g == WordIndex[i]
    ensures S[i] == Shift(i)
  {
    assert i == 24 || i == 25 || i == 26 || i == 27 || i == 28 || i == 29 || i == 30 || i == 31;
  }

  /** The tables agree on the first half of round 3. */
  lemma TablesAgreeFrom32(i: nat)
    requires 32 <= i < 40
    ensures SelectRound(i).g == WordIndex[i]
    ensures S[i] == Shift(i)
  {
    assert i == 32 || i == 33 || i == 34 || i == 35 || i == 36 || i == 37 || i == 38 || i == 39;
  }

  /** The tables agree on the second half of round 3. */
  lemma TablesAgreeFrom40(i: nat)
    requires 40 <= i < 48
    ensures SelectRound(i).g == WordIndex[i]
    ensures S[i] == Shift(i)
  {
    assert i == 40 || i == 41 || i == 42 || i == 43 || i == 44 || i == 45 || i == 46 || i == 47;
  }

  /** The tables agree on the first half of round 4. */
  lemma TablesAgreeFrom48(i: nat)
    requires 48 <= i < 56
    ensures SelectRound(i).g == WordIndex[i]
    ensures S[i] == Shift(i)
  {
    assert i == 48 || i == 49 || i == 50 || i == 51 || i == 52 || i == 53 || i == 54 || i == 55;
  }

  /** The tables agree on the second half of round 4. */
  lemma TablesAgreeFrom56(i: nat)
    requires 56 <= i < 64
    ensures SelectRound(i).g == WordIndex[i]
    ensures S[i] == Shift(i)
  {
    assert i == 56 || i == 57 || i == 58 || i == 59 || i == 60 || i == 61 || i == 62 || i == 63;
  }

  /** The nonlinear function selected for round i is the auxiliary function
      of its quarter. */
  lemma MixIsAux(i: nat, b: word, c: word, d: word)
    requires i < 64
    ensures Mix(SelectRound(i).fn, b, c, d) == Aux(i / 16, b, c, d)
  {
    if i < 16 {
      assert i / 16 == 0 && SelectRound(i).fn == F;
    } else if i < 32 {
      assert i / 16 == 1 && SelectRound(i).fn == G;
      assert (d & b) | (!d & c) == (b & d) | (c & !d);
    } else if i < 48 {
      assert i / 16 == 2 && SelectRound(i).fn == H;
    } else {
      assert i / 16 == 3 && SelectRound(i).fn == I;
    }
  }

  /** One round of the compression function is one RFC operation on the
      word it rotates into position b. */
  lemma StepIsOp(i: nat, w: State, x: seq<word>)
    requires i < 64 && |x| == 16
    ensures Step(i, w, x) == State(w.d, OpAt(i, w.a, w.b, w.c, w.d, x), w.b, w.c)
  {
    StepAsOp(i, w, x);
    OpAtAsStep(i, w, x);
  }

  /** A round of the compression function, written as an RFC operation on the
      function value, word and shift the round selects. */
  lemma StepAsOp(i: nat, w: State, x: seq<word>)
    requires i < 64 && |x| == 16
    ensures Step(i, w, x) == State(w.d, Op(w.a, w.b, Mix(SelectRound(i).fn, w.b, w.c, w.d), x[SelectRound(i).g], S[i], K[i]), w.b, w.c)
  {
    StepUnfold(i, w, x);
    RoundSumIsOp(Mix(SelectRound(i).fn, w.b, w.c, w.d), w.a, w.b, K[i], x[SelectRound(i).g], S[i]);
  }

  /** Operation i of the listing uses the same function value, word and shift
      as round i of the compression function. */
  lemma OpAtAsStep(i: nat, w: State, x: seq<word>)
    requires i < 64 && |x| == 16
    ensures OpAt(i, w.a, w.b, w.c, w.d, x) == Op(w.a, w.b, Mix(SelectRound(i).fn, w.b, w.c, w.d), x[SelectRound(i).g], S[i], K[i])
  {
    TablesAgree(i);
    MixIsAux(i, w.b, w.c, w.d);
    OpCongruence(w.a, w.b, Mix(SelectRound(i).fn, w.b, w.c, w.d), Aux(i / 16, w.b, w.c, w.d),
      x[SelectRound(i).g], x[WordIndex[i]], S[i], Shift(i), K[i]);
  }

  /** Round i moves the words one place and updates b with its round sum. */
  lemma StepUnfold(i: nat, w: State, x: seq<word>)
    requires i < 64 && |x| == 16
    ensures Step(i, w, x) == State(w.d, RoundSum(Mix(SelectRound(i).fn, w.b, w.c, w.d), w.a, w.b, K[i], x[SelectRound(i).g], S[i]), w.b, w.c)
  {
  }

  /** An operation is determined by its function value, word and shift. */
  lemma OpCongruence(a: word, b: word, f: word, f': word, m: word, m': word, s: word, s': word, t: word)
    requires f == f' && m == m' && s == s'
    ensures Op(a, b, f, m, s, t) == Op(a, b, f', m', s', t)
  {
  }

  /** The round update with the sum taken in the compression function's
      order is the RFC operation, whose sum is written in another order:
      addition modulo 2^32 is commutative and associative. */
  lemma RoundSumIsOp(f: word, a: word, b: word, t: word, m: word, s: word)
    ensures RoundSum(f, a, b, t, m, s) == Op(a, b, f, m, s, t)
  {
  }

  /** Rotating by the compression function's S[i] is the rotation <<< by
      the shift listed for operation i. */
  lemma RotLAtShift(y: word, i: nat)
    requires i < 64
    ensures RotL(y, S[i]) == Rotate(i, y)
  {
    TablesAgree(i);
    if i < 16 {
      RoundOneRotation(y, i);
    } else if i < 32 {
      RoundTwoRotation(y, i);
    } else if i < 48 {
      RoundThreeRotation(y, i);
    } else {
      RoundFourRotation(y, i);
    }
  }

  /** The shifts S11..S14 are circular shifts. */
  lemma RoundOneRotation(y: word, i: nat)
    requires i < 16
    ensures RotL(y, Shift(i)) == Rotate(i, y)
  {
    var p := i % 4;
    if p == 0 { RotL7(y); } else if p == 1 { RotL12(y); } else if p == 2 { RotL17(y); } else { RotL22(y); }
  }

  /** The shifts S21..S24 are circular shifts. */
  lemma RoundTwoRotation(y: word, i: nat)
    requires 16 <= i < 32
    ensures RotL(y, Shift(i)) == Rotate(i, y)
  {
    var p := i % 4;
    if p == 0 { RotL5(y); } else if p == 1 { RotL9(y); } else if p == 2 { RotL14(y); } else { RotL20(y); }
  }

  /** The shifts S31..S34 are circular shifts. */
  lemma RoundThreeRotation(y: word, i: nat)
    requires 32 <= i < 48
    ensures RotL(y, Shift(i)) == Rotate(i, y)
  {
    var p := i % 4;
    if p == 0 { RotL4(y); } else if p == 1 { RotL11(y); } else if p == 2 { RotL16(y); } else { RotL23(y); }
  }

  /** The shifts S41..S44 are circular shifts. */
  lemma RoundFourRotation(y: word, i: nat)
    requires 48 <= i < 64
    ensures RotL(y, Shift(i)) == Rotate(i, y)
  {
    var p := i % 4;
    if p == 0 { RotL6(y); } else if p == 1 { RotL10(y); } else if p == 2 { RotL15(y); } else { RotL21(y); }
  }

  /** Four rotating rounds bring the words back to their names, and equal
      one RFC group. */
  lemma FourStepsAreGroup(j: nat, w: State, x: seq<word>)
    requires j < 16 && |x| == 16
    ensures Rounds(w, x, 4 * j + 4) == Group(j, Rounds(w, x, 4 * j), x)
  {
    var i := 4 * j;
    var w0 := Rounds(w, x, i);
    var w1 := Rounds(w, x, i + 1);
    var w2 := Rounds(w, x, i + 2);
    var w3 := Rounds(w, x, i + 3);
    StepIsOp(i, w0, x);
    StepIsOp(i + 1, w1, x);
    StepIsOp(i + 2, w2, x);
    StepIsOp(i + 3, w3, x);
  }

  /** After 4n rounds the working words equal the state after n groups. */
  lemma {:induction false} RoundsAreGroups(w: State, x: seq<word>, n: nat)
    requires n <= 16 && |x| == 16
    ensures Rounds(w, x, 4 * n) == Groups(w, x, n)
  {
    if n > 0 {
      var k := n - 1;
      RoundsAreGroups(w, x, k);
      FourStepsAreGroup(k, w, x);
      assert 4 * n == 4 * k + 4;
    }
  }

  /** The compression function computes the RFC 1321 transform. */
  lemma CompressIsRfc(st: State, block: seq<byte>)
    requires |block| == 64
    ensures Compress(st, block) == RfcCompress(st, block)
  {
    RoundsAreGroups(st, DecodeWords(block), 16);
  }
}
