/**
 * The word-level operations of the SHA1 class and its per-byte state transition,
 * written as values: what one call of `update` does to (H, W, lenW, bitCount), and
 * the invariant that ties that state to the bytes absorbed since the last reset.
 */
module Sha1Steps {
  import opened Fips180

  /**
   * shaRotl: x shifted left by n ORed with x shifted right (without sign) by 32 - n. For
   * the amounts hashBlock passes it is the 32-bit rotation to the left of FIPS 180-1;
   * ShaRotlIsRotate shows the same for every amount 1..31.
   */
  function ShaRotl(x: bv32, n: bv32): (r: bv32)
    requires 1 <= n <= 31
    ensures n == 1 ==> r == x.RotateLeft(1)
    ensures n == 5 ==> r == x.RotateLeft(5)
    ensures n == 30 ==> r == x.RotateLeft(30)
  {
    (x << n) | (x >> (32 - n))
  }

  /** shaRotl is the 32-bit rotation to the left for every amount 1..31 it accepts. */
  lemma {:induction false} ShaRotlIsRotate(x: bv32, n: bv32)
    requires 1 <= n <= 31
    ensures ShaRotl(x, n) == x.RotateLeft(n as nat)
  {
    if n <= 8 {
      RotateUpTo8(x, n);
    } else if n <= 16 {
      RotateUpTo16(x, n);
    } else if n <= 24 {
      RotateUpTo24(x, n);
    } else {
      RotateUpTo31(x, n);
    }
  }

  /** shaRotl rotates for the amounts 1..8. */
  lemma {:induction false} RotateUpTo8(x: bv32, n: bv32)
    requires 1 <= n <= 8
    ensures ShaRotl(x, n) == x.RotateLeft(n as nat)
  {
    if n == 1 {
      assert (x << 1) | (x >> 31) == x.RotateLeft(1);
    } else if n == 2 {
      assert (x << 2) | (x >> 30) == x.RotateLeft(2);
    } else if n == 3 {
      assert (x << 3) | (x >> 29) == x.RotateLeft(3);
    } else if n == 4 {
      assert (x << 4) | (x >> 28) == x.RotateLeft(4);
    } else if n == 5 {
      assert (x << 5) | (x >> 27) == x.RotateLeft(5);
    } else if n == 6 {
      assert (x << 6) | (x >> 26) == x.RotateLeft(6);
    } else if n == 7 {
      assert (x << 7) | (x >> 25) == x.RotateLeft(7);
    } else {
      assert (x << 8) | (x >> 24) == x.RotateLeft(8);
    }
  }

  /** shaRotl rotates for the amounts 9..16. */
  lemma {:induction false} RotateUpTo16(x: bv32, n: bv32)
    requires 9 <= n <= 16
    ensures ShaRotl(x, n) == x.RotateLeft(n as nat)
  {
    if n == 9 {
      assert (x << 9) | (x >> 23) == x.RotateLeft(9);
    } else if n == 10 {
      assert (x << 10) | (x >> 22) == x.RotateLeft(10);
    } else if n == 11 {
      assert (x << 11) | (x >> 21) == x.RotateLeft(11);
    } else if n == 12 {
      assert (x << 12) | (x >> 20) == x.RotateLeft(12);
    } else if n == 13 {
      assert (x << 13) | (x >> 19) == x.RotateLeft(13);
    } else if n == 14 {
      assert (x << 14) | (x >> 18) == x.RotateLeft(14);
    } else if n == 15 {
      assert (x << 15) | (x >> 17) == x.RotateLeft(15);
    } else {
      assert (x << 16) | (x >> 16) == x.RotateLeft(16);
    }
  }

  /** shaRotl rotates for the amounts 17..24. */
  lemma {:induction false} RotateUpTo24(x: bv32, n: bv32)
    requires 17 <= n <= 24
    ensures ShaRotl(x, n) == x.RotateLeft(n as nat)
  {
    if n == 17 {
      assert (x << 17) | (x >> 15) == x.RotateLeft(17);
    } else if n == 18 {
      assert (x << 18) | (x >> 14) == x.RotateLeft(18);
    } else if n == 19 {
      assert (x << 19) | (x >> 13) == x.RotateLeft(19);
    } else if n == 20 {
      assert (x << 20) | (x >> 12) == x.RotateLeft(20);
    } else if n == 21 {
      assert (x << 21) | (x >> 11) == x.RotateLeft(21);
    } else if n == 22 {
      assert (x << 22) | (x >> 10) == x.RotateLeft(22);
    } else if n == 23 {
      assert (x << 23) | (x >> 9) == x.RotateLeft(23);
    } else {
      assert (x << 24) | (x >> 8) == x.RotateLeft(24);
    }
  }

  /** shaRotl rotates for the amounts 25..31. */
  lemma {:induction false} RotateUpTo31(x: bv32, n: bv32)
    requires 25 <= n <= 31
    ensures ShaRotl(x, n) == x.RotateLeft(n as nat)
  {
    if n == 25 {
      assert (x << 25) | (x >> 7) == x.RotateLeft(25);
    } else if n == 26 {
      assert (x << 26) | (x >> 6) == x.RotateLeft(26);
    } else if n == 27 {
      assert (x << 27) | (x >> 5) == x.RotateLeft(27);
    } else if n == 28 {
      assert (x << 28) | (x >> 4) == x.RotateLeft(28);
    } else if n == 29 {
      assert (x << 29) | (x >> 3) == x.RotateLeft(29);
    } else if n == 30 {
      assert (x << 30) | (x >> 2) == x.RotateLeft(30);
    } else {
      assert (x << 31) | (x >> 1) == x.RotateLeft(31);
    }
  }

  /** Round 1's function as hashBlock writes it; it is the selection function of FIPS 180-1. */
  function Round1F(b: bv32, c: bv32, d: bv32): (r: bv32)
    ensures r == (b & c) | (!b & d)
    ensures r == F(0, b, c, d)
  {
    ((c ^ d) & b) ^ d
  }

  /** Round 3's function as hashBlock writes it; it is the majority function of FIPS 180-1. */
  function Round3F(b: bv32, c: bv32, d: bv32): (r: bv32)
    ensures r == (b & c) | (b & d) | (c & d)
    ensures r == F(40, b, c, d)
  {
    (b & c) | (d & (b | c))
  }

  /** Rounds 2 and 4's function as hashBlock writes it, B XOR C XOR D: the parity function of FIPS 180-1. */
  function Parity(b: bv32, c: bv32, d: bv32): (r: bv32)
    ensures r == F(20, b, c, d) && r == F(60, b, c, d)
  {
    b ^ c ^ d
  }

  /** In rounds 0..19 the function hashBlock writes is f(t; B, C, D). */
  lemma {:induction false} Round1FIsF(t: nat, b: bv32, c: bv32, d: bv32)
    requires t < 20
    ensures Round1F(b, c, d) == F(t, b, c, d)
  {
  }

  /** In rounds 40..59 the function hashBlock writes is f(t; B, C, D). */
  lemma {:induction false} Round3FIsF(t: nat, b: bv32, c: bv32, d: bv32)
    requires 40 <= t < 60
    ensures Round3F(b, c, d) == F(t, b, c, d)
  {
  }

  /**
   * A round of FIPS 180-1 given the values hashBlock computes for S^5(A), f, K and S^30(B):
   * the new A is their TEMP, and B, C, D, E take the old A, S^30(B), C and D.
   */
  lemma {:induction false} RoundStep(v: Vars, t: nat, wt: bv32, a5: bv32, f: bv32, k: bv32, b30: bv32)
    requires t < 80
    requires a5 == v.a.RotateLeft(5) && f == F(t, v.b, v.c, v.d) && k == K(t) && b30 == v.b.RotateLeft(30)
    ensures Round(v, t, wt) == Vars(Temp(a5, f, v.e, wt, k), v.a, b30, v.c, v.d)
  {
    RoundUnfold(v, t, wt);
  }

  lemma {:induction false} RoundUnfold(v: Vars, t: nat, wt: bv32)
    requires t < 80
    ensures Round(v, t, wt)
      == Vars(Temp(v.a.RotateLeft(5), F(t, v.b, v.c, v.d), v.e, wt, K(t)), v.a, v.b.RotateLeft(30), v.c, v.d)
  {
  }

  /** In rounds 20..39 and 60..79 the function hashBlock writes is f(t; B, C, D). */
  lemma {:induction false} ParityIsF(t: nat, b: bv32, c: bv32, d: bv32)
    requires 20 <= t < 40 || 60 <= t < 80
    ensures Parity(b, c, d) == F(t, b, c, d)
  {
  }

  /** One iteration of hashBlock's round 1 loop is round t of FIPS 180-1. */
  lemma {:induction false} RoundOneStep(v: Vars, t: nat, wt: bv32)
    requires t < 20
    ensures Round(v, t, wt)
      == Vars(Temp(ShaRotl(v.a, 5), Round1F(v.b, v.c, v.d), v.e, wt, 0x5A827999), v.a, ShaRotl(v.b, 30), v.c, v.d)
  {
    Round1FIsF(t, v.b, v.c, v.d);
    RoundStep(v, t, wt, ShaRotl(v.a, 5), Round1F(v.b, v.c, v.d), 0x5A827999, ShaRotl(v.b, 30));
  }

  /** One iteration of hashBlock's round 2 loop is round t of FIPS 180-1. */
  lemma {:induction false} RoundTwoStep(v: Vars, t: nat, wt: bv32)
    requires 20 <= t < 40
    ensures Round(v, t, wt)
      == Vars(Temp(ShaRotl(v.a, 5), Parity(v.b, v.c, v.d), v.e, wt, 0x6ED9EBA1), v.a, ShaRotl(v.b, 30), v.c, v.d)
  {
    ParityIsF(t, v.b, v.c, v.d);
    RoundStep(v, t, wt, ShaRotl(v.a, 5), Parity(v.b, v.c, v.d), 0x6ED9EBA1, ShaRotl(v.b, 30));
  }

  /** One iteration of hashBlock's round 3 loop is round t of FIPS 180-1. */
  lemma {:induction false} RoundThreeStep(v: Vars, t: nat, wt: bv32)
    requires 40 <= t < 60
    ensures Round(v, t, wt)
      == Vars(Temp(ShaRotl(v.a, 5), Round3F(v.b, v.c, v.d), v.e, wt, 0x8F1BBCDC), v.a, ShaRotl(v.b, 30), v.c, v.d)
  {
    Round3FIsF(t, v.b, v.c, v.d);
    RoundStep(v, t, wt, ShaRotl(v.a, 5), Round3F(v.b, v.c, v.d), 0x8F1BBCDC, ShaRotl(v.b, 30));
  }

  /** One iteration of hashBlock's round 4 loop is round t of FIPS 180-1. */
  lemma {:induction false} RoundFourStep(v: Vars, t: nat, wt: bv32)
    requires 60 <= t < 80
    ensures Round(v, t, wt)
      == Vars(Temp(ShaRotl(v.a, 5), Parity(v.b, v.c, v.d), v.e, wt, 0xCA62C1D6), v.a, ShaRotl(v.b, 30), v.c, v.d)
  {
    ParityIsF(t, v.b, v.c, v.d);
    RoundStep(v, t, wt, ShaRotl(v.a, 5), Parity(v.b, v.c, v.d), 0xCA62C1D6, ShaRotl(v.b, 30));
  }

  /** hashBlock's expansion of W(t) is the recurrence of FIPS 180-1. */
  lemma {:induction false} ScheduleStep(w3: bv32, w8: bv32, w14: bv32, w16: bv32)
    ensures ShaRotl(w3 ^ w8 ^ w14 ^ w16, 1) == ScheduleWord(w3, w8, w14, w16)
  {
  }

  /** Adding the working variables after the 80 rounds into H is Compress. */
  lemma {:induction false} CompressStep(h: seq<bv32>, block: seq<bv32>, v: Vars)
    requires |h| == 5 && |block| == 16
    requires v == Rounds(Vars(h[0], h[1], h[2], h[3], h[4]), Schedule(block), |Schedule(block)|)
    ensures Compress(h, block) == AddVars(h, v)
  {
  }

  /** Two five-word sequences with the same words are equal. */
  lemma {:induction false} FiveWords(x: seq<bv32>, y: seq<bv32>)
    requires |x| == 5 && |y| == 5
    requires x[0] == y[0] && x[1] == y[1] && x[2] == y[2] && x[3] == y[3] && x[4] == y[4]
    ensures x == y
  {
  }

  /** Two eight-byte sequences with the same bytes are equal. */
  lemma {:induction false} EightBytes(x: seq<bv8>, y: seq<bv8>)
    requires |x| == 8 && |y| == 8
    requires x[0] == y[0] && x[1] == y[1] && x[2] == y[2] && x[3] == y[3]
    requires x[4] == y[4] && x[5] == y[5] && x[6] == y[6] && x[7] == y[7]
    ensures x == y
  {
  }

  /** update: the word is shifted left by 8 bits and the byte ORed into its low end. */
  function Push(x: bv32, b: bv8): bv32
  {
    (x << 8) | (b as bv32)
  }

  /** A push drops the word's first big-endian byte and appends b as its last. */
  lemma {:induction false} PushBytes(x: bv32, b: bv8)
    ensures BytesOf(Push(x, b)) == BytesOf(x)[1..] + [b]
  {
  }

  /** The word after pushing the bytes of s into x, first to last. */
  function PushAll(x: bv32, s: seq<bv8>): (r: bv32)
    ensures s != [] ==> (r & 0xFF) == s[|s| - 1] as bv32
    decreases |s|
  {
    if s == [] then x else Push(PushAll(x, s[..|s| - 1]), s[|s| - 1])
  }

  /**
   * Four pushes shift out whatever the word held before: the result is the big-endian
   * packing of the four bytes. This is why W need not be cleared between blocks.
   */
  lemma {:induction false} PushFour(x: bv32, s: seq<bv8>)
    requires |s| == 4
    ensures PushAll(x, s) == WordOf(s)
  {
    assert s[..3][..2] == s[..2] && s[..2][..1] == s[..1] && s[..1][..0] == [];
    assert PushAll(x, s[..1]) == Push(x, s[0]);
    assert PushAll(x, s[..2]) == Push(Push(x, s[0]), s[1]);
    assert PushAll(x, s[..3]) == Push(Push(Push(x, s[0]), s[1]), s[2]);
  }

  function Min4(n: int): int
  {
    if n < 4 then n else 4
  }

  /**
   * Word j of w is what pushing the bytes of p that fall into it leaves, whatever the
   * word held before them.
   */
  ghost predicate WordFilled(w: seq<bv32>, p: seq<bv8>, j: int)
    requires 0 <= j < 16 <= |w| && 4 * j < |p|
  {
    exists stale :: w[j] == PushAll(stale, WordPart(p, j))
  }

  /** The bytes of p that fall into word j: up to four, starting at byte 4j. */
  function WordPart(p: seq<bv8>, j: int): seq<bv8>
    requires 0 <= j && 4 * j < |p|
  {
    p[4 * j .. 4 * j + Min4(|p| - 4 * j)]
  }

  /**
   * The bytes p of the current block are packed big-endian into W: complete words
   * hold their four bytes, the partial word holds its bytes at its low end.
   */
  ghost predicate Filled(w: seq<bv32>, p: seq<bv8>)
    requires 16 <= |w| && |p| <= 64
  {
    forall j :: 0 <= j < 16 && 4 * j < |p| ==> WordFilled(w, p, j)
  }

  /** Pushing the next byte of the block into word |p|/4 keeps W filled. */
  lemma {:induction false} FilledPush(w: seq<bv32>, p: seq<bv8>, b: bv8)
    requires 16 <= |w| && |p| < 64 && Filled(w, p)
    ensures Filled(w[|p| / 4 := Push(w[|p| / 4], b)], p + [b])
  {
    var i := |p| / 4;
    var w', p' := w[i := Push(w[i], b)], p + [b];
    forall j | 0 <= j < 16 && 4 * j < |p'|
      ensures WordFilled(w', p', j)
    {
      if j == i {
        var r := |p| - 4 * j;
        var part := p[4 * j .. 4 * j + r];
        assert p'[4 * j .. 4 * j + r + 1] == part + [b];
        assert (part + [b])[..r] == part;
        if r == 0 {
          assert WordPart(p', j) == [b];
          assert w'[j] == PushAll(w[j], [b]);
        } else {
          assert WordFilled(w, p, j);
          assert WordPart(p, j) == part;
          var stale :| w[j] == PushAll(stale, part);
          assert WordPart(p', j) == part + [b];
          assert w'[j] == PushAll(stale, part + [b]);
        }
      } else {
        assert WordFilled(w, p, j);
        assert WordPart(p', j) == WordPart(p, j);
      }
    }
  }

  /** Once all 64 bytes are in, W(0..15) are the sixteen words of the block. */
  lemma {:induction false} FilledBlock(w: seq<bv32>, p: seq<bv8>)
    requires 16 <= |w| && |p| == 64 && Filled(w, p)
    ensures w[..16] == BlockWords(p)
  {
    forall j | 0 <= j < 16
      ensures w[j] == BlockWords(p)[j]
    {
      assert WordFilled(w, p, j);
      assert WordPart(p, j) == p[4 * j .. 4 * j + 4];
      var stale :| w[j] == PushAll(stale, p[4 * j .. 4 * j + 4]);
      PushFour(stale, p[4 * j .. 4 * j + 4]);
    }
  }

  /** The fields of the SHA1 object: m_h, m_w, m_iLenW and m_lBitCount. */
  datatype State = State(h: seq<bv32>, w: seq<bv32>, lenW: int, bitCount: int)

  /**
   * Five chaining words, eighty schedule words, fewer than 64 bytes pending, and the bit
   * count a 64-bit pattern (the Java long read as an unsigned number).
   */
  predicate WellFormed(s: State)
  {
    |s.h| == 5 && |s.w| == 80 && 0 <= s.lenW < 64 && 0 <= s.bitCount < TwoTo64
  }

  /** The state reset() leaves: the initial H, W cleared, both counters zero. */
  function Initial(): (s: State)
    ensures WellFormed(s) && s.lenW == 0 && s.bitCount == 0
    ensures s.h == InitialHash && forall t :: 0 <= t < 80 ==> s.w[t] == 0
  {
    State(InitialHash, seq(80, _ => 0), 0, 0)
  }

  /**
   * One iteration of update's loop: push the byte into word lenW/4, count it, run
   * hashBlock when it is the 64th byte of the block, and add 8 to the bit count.
   */
  function AbsorbByte(s: State, b: bv8): (r: State)
    requires WellFormed(s)
    ensures WellFormed(r)
    ensures r.bitCount == (s.bitCount + 8) % TwoTo64
    ensures r.lenW == (s.lenW + 1) % 64
  {
    var j := s.lenW / 4;
    var w := s.w[j := Push(s.w[j], b)];
    if (s.lenW + 1) % 64 == 0 then State(Compress(s.h, w[..16]), Schedule(w[..16]), 0, (s.bitCount + 8) % TwoTo64)
    else State(s.h, w, s.lenW + 1, (s.bitCount + 8) % TwoTo64)
  }

  /** A byte that does not complete the block only lands in W and is counted. */
  lemma {:induction false} AbsorbByteInBlock(s: State, b: bv8)
    requires WellFormed(s) && s.lenW < 63
    ensures AbsorbByte(s, b)
      == State(s.h, s.w[s.lenW / 4 := Push(s.w[s.lenW / 4], b)], s.lenW + 1, (s.bitCount + 8) % TwoTo64)
  {
  }

  /** The 64th byte of a block lands in W(15), and hashBlock then runs on W(0..15). */
  lemma {:induction false} AbsorbByteAtEnd(s: State, b: bv8)
    requires WellFormed(s) && s.lenW == 63
    ensures var w := s.w[15 := Push(s.w[15], b)];
      AbsorbByte(s, b) == State(Compress(s.h, w[..16]), Schedule(w[..16]), 0, (s.bitCount + 8) % TwoTo64)
  {
  }

  /** The state after absorbing bytes one at a time, in order. */
  function Feed(s: State, bytes: seq<bv8>): (r: State)
    requires WellFormed(s)
    ensures WellFormed(r)
    decreases |bytes|
  {
    if bytes == [] then s else AbsorbByte(Feed(s, bytes[..|bytes| - 1]), bytes[|bytes| - 1])
  }

  /** Absorbing one more byte after some bytes. */
  lemma {:induction false} FeedLast(s: State, bytes: seq<bv8>, b: bv8)
    requires WellFormed(s)
    ensures Feed(s, bytes + [b]) == AbsorbByte(Feed(s, bytes), b)
  {
    assert (bytes + [b])[..|bytes|] == bytes;
  }

  /** Absorbing a + b is absorbing a and then b: how the input is split into calls does not matter. */
  lemma {:induction false} FeedAppend(s: State, a: seq<bv8>, b: seq<bv8>)
    requires WellFormed(s)
    ensures Feed(s, a + b) == Feed(Feed(s, a), b)
    decreases |b|
  {
    if b == [] {
      assert a + b == a;
    } else {
      var ab := a + b;
      assert ab[..|ab| - 1] == a + b[..|b| - 1];
      assert ab[|ab| - 1] == b[|b| - 1];
      FeedAppend(s, a, b[..|b| - 1]);
    }
  }

  /** Every absorbed byte adds 8 to the bit count, modulo 2^64, whether or not it ends a block. */
  lemma {:induction false} FeedBitCount(s: State, bytes: seq<bv8>)
    requires WellFormed(s)
    ensures Feed(s, bytes).bitCount == (s.bitCount + BitLength(bytes)) % TwoTo64
    decreases |bytes|
  {
    if bytes != [] {
      var init := bytes[..|bytes| - 1];
      FeedBitCount(s, init);
      var before := Feed(s, init);
      assert Feed(s, bytes).bitCount == (before.bitCount + 8) % TwoTo64;
      CountAdd(s.bitCount, |init|);
    }
  }

  /** When the bit count is the length of m, after absorbing more bytes it is the length of all of them. */
  lemma {:induction false} FeedCountsBits(s: State, m: seq<bv8>, bytes: seq<bv8>)
    requires WellFormed(s) && s.bitCount == BitLength(m)
    ensures Feed(s, bytes).bitCount == BitLength(m + bytes)
  {
    FeedBitCount(s, bytes);
    BitLengthAppend(m, bytes);
  }

  /** Adding 8 to the count of n bytes, modulo 2^64, is the count of n + 1 bytes. */
  lemma {:induction false} CountAdd(c: int, n: nat)
    ensures ((c + (8 * n) % TwoTo64) % TwoTo64 + 8) % TwoTo64 == (c + (8 * (n + 1)) % TwoTo64) % TwoTo64
  {
    ModAdd(c + (8 * n) % TwoTo64, 8);
    ModAdd(8 * n, c + 8);
    ModAdd(8 * (n + 1), c);
  }

  /** Reducing a summand modulo 2^64 first does not change the sum modulo 2^64. */
  lemma {:induction false} ModAdd(x: int, y: int)
    ensures (x % TwoTo64 + y) % TwoTo64 == (x + y) % TwoTo64
  {
  }

  /**
   * The state is the one the bytes m absorbed since the last reset lead to: H chains
   * m's complete blocks, lenW counts the bytes of the incomplete one, and those bytes
   * are packed into W.
   */
  ghost predicate Tracks(s: State, m: seq<bv8>)
  {
    && WellFormed(s)
    && s.lenW == |m| % 64
    && s.h == HashBlocks(InitialHash, m[..|m| - s.lenW])
    && Filled(s.w, m[|m| - s.lenW..])
  }

  /** The state after reset tracks the empty message. */
  lemma {:induction false} InitialTracks(s: State, m: seq<bv8>)
    requires s == Initial() && m == []
    ensures Tracks(s, m)
  {
  }

  /** Facts about n % 64 = L when one more byte arrives. */
  lemma {:induction false} CountStep(n: nat, L: int)
    requires n % 64 == L
    ensures (n - L) % 64 == 0
    ensures L < 63 ==> (n + 1) % 64 == L + 1
    ensures L == 63 ==> (n + 1) % 64 == 0
  {
    assert n == 64 * (n / 64) + L;
    assert n - L == 64 * (n / 64);
    if L == 63 {
      assert n + 1 == 64 * (n / 64 + 1);
    }
  }

  /**
   * A byte that does not end the block: pushing it into word lenW/4, counting it and
   * keeping H gives a state that tracks the longer message.
   */
  lemma {:induction false} AbsorbByteWithinBlock(s: State, m: seq<bv8>, b: bv8)
    requires Tracks(s, m) && s.lenW < 63
    ensures Tracks(State(s.h, s.w[s.lenW / 4 := Push(s.w[s.lenW / 4], b)], s.lenW + 1, (s.bitCount + 8) % TwoTo64), m + [b])
  {
    var L := s.lenW;
    CountStep(|m|, L);
    PushSplit(m, b, L);
    FilledPush(s.w, m[|m| - L..], b);
  }

  /** Appending b moves it into the last k + 1 bytes and leaves the bytes before them alone. */
  lemma {:induction false} PushSplit(m: seq<bv8>, b: bv8, k: nat)
    requires k <= |m|
    ensures var m' := m + [b];
      m'[..|m'| - (k + 1)] == m[..|m| - k] && m'[|m'| - (k + 1)..] == m[|m| - k..] + [b]
  {
    var m' := m + [b];
    assert m'[..|m'| - (k + 1)] == m[..|m| - k];
    assert m'[|m'| - (k + 1)..] == m[|m| - k..] + [b];
  }

  /** The 64th byte of a block makes W(0..15) the sixteen words of the block. */
  lemma {:induction false} EndsBlockWords(s: State, m: seq<bv8>, b: bv8)
    requires Tracks(s, m) && s.lenW == 63
    ensures s.w[15 := Push(s.w[15], b)][..16] == BlockWords(m[|m| - 63..] + [b])
  {
    var pending := m[|m| - 63..];
    FilledPush(s.w, pending, b);
    FilledBlock(s.w[15 := Push(s.w[15], b)], pending + [b]);
  }

  /** Compressing the completed block into H gives the hash of every block of m + [b]. */
  lemma {:induction false} EndsBlockHash(s: State, m: seq<bv8>, b: bv8)
    requires Tracks(s, m) && s.lenW == 63
    ensures Compress(s.h, s.w[15 := Push(s.w[15], b)][..16]) == HashBlocks(InitialHash, m + [b])
  {
    CountStep(|m|, 63);
    var prefix, block := m[..|m| - 63], m[|m| - 63..] + [b];
    EndsBlockWords(s, m, b);
    HashBlocksLast(InitialHash, prefix, block);
    SplitLast(m, b, 63);
  }

  /** m + [b] is its bytes before the last k + 1 followed by those k + 1. */
  lemma {:induction false} SplitLast(m: seq<bv8>, b: bv8, k: nat)
    requires k <= |m|
    ensures m[..|m| - k] + (m[|m| - k..] + [b]) == m + [b]
  {
    assert m[..|m| - k] + m[|m| - k..] == m;
  }

  /** The 64th byte of a block leaves H chaining every block and no byte pending. */
  lemma {:induction false} AbsorbByteEndsBlock(s: State, m: seq<bv8>, b: bv8)
    requires Tracks(s, m) && s.lenW == 63
    ensures Tracks(AbsorbByte(s, b), m + [b])
  {
    var m' := m + [b];
    CountStep(|m|, 63);
    EndsBlockHash(s, m, b);
    assert m'[..|m'| - 0] == m';
    assert |m'[|m'| - 0..]| == 0;
  }

  /** Absorbing one byte keeps the state tracking the absorbed bytes. */
  lemma {:induction false} AbsorbByteTracks(s: State, m: seq<bv8>, b: bv8)
    requires Tracks(s, m)
    ensures Tracks(AbsorbByte(s, b), m + [b])
  {
    if s.lenW < 63 {
      AbsorbByteInBlock(s, b);
      AbsorbByteWithinBlock(s, m, b);
    } else {
      AbsorbByteEndsBlock(s, m, b);
    }
  }

  /** Absorbing any bytes keeps the state tracking the absorbed bytes. */
  lemma {:induction false} FeedTracks(s: State, m: seq<bv8>, bytes: seq<bv8>)
    requires Tracks(s, m)
    ensures Tracks(Feed(s, bytes), m + bytes)
    decreases |bytes|
  {
    if bytes == [] {
      assert m + bytes == m;
    } else {
      var init, last := bytes[..|bytes| - 1], bytes[|bytes| - 1];
      FeedTracks(s, m, init);
      AbsorbByteTracks(Feed(s, init), m + init, last);
      assert (m + init) + [last] == m + bytes;
    }
  }

  /** The bit count c after counting bytes more: 8 per byte, modulo 2^64. */
  function Counted(c: int, bytes: seq<bv8>): (r: int)
    ensures 0 <= r < TwoTo64
  {
    (c + BitLength(bytes)) % TwoTo64
  }

  /** The state bytes lead to from a state tracking m tracks m + bytes and has counted them. */
  lemma {:induction false} FeedFrom(s: State, m: seq<bv8>, bytes: seq<bv8>)
    requires Tracks(s, m)
    ensures Tracks(Feed(s, bytes), m + bytes) && Feed(s, bytes).bitCount == Counted(s.bitCount, bytes)
  {
    FeedTracks(s, m, bytes);
    FeedBitCount(s, bytes);
  }

  /** After whole blocks nothing is pending and H chains all of them. */
  lemma {:induction false} TracksBlocks(s: State, m: seq<bv8>)
    requires Tracks(s, m) && |m| % 64 == 0
    ensures s.lenW == 0 && s.h == HashBlocks(InitialHash, m)
  {
    assert m[..|m| - 0] == m;
  }

  /**
   * The bytes update(bytes, off, end)'s loop reads: one per pass, from index off while the
   * index is below end, so nothing at all unless off < end.
   */
  function Slice(bytes: seq<bv8>, off: int, end: int): (r: seq<bv8>)
    requires off < end ==> 0 <= off && end <= |bytes|
    ensures |r| == if off < end then end - off else 0
    decreases end - off
  {
    if off < end then Slice(bytes, off, end - 1) + [bytes[end - 1]] else []
  }

  /** When off <= end the loop reads exactly the subsequence bytes[off..end). */
  lemma {:induction false} SliceIsRange(bytes: seq<bv8>, off: int, end: int)
    requires 0 <= off <= end <= |bytes|
    ensures Slice(bytes, off, end) == bytes[off..end]
    decreases end - off
  {
    if off < end {
      SliceIsRange(bytes, off, end - 1);
      assert bytes[off..end] == bytes[off..end - 1] + [bytes[end - 1]];
    }
  }
}
