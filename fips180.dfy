/**
 * The SHA-1 secure hash algorithm as FIPS 180-1 defines it (RFC 3174 restates it),
 * written as pure functions on 32-bit words and bytes. This module is the reference
 * the streaming implementation in module Challenge is proved against; nothing in it
 * follows the implementation's order of work.
 */
module Fips180 {

  /** Section 7: the initial chaining value H0..H4. */
  const InitialHash: seq<bv32> := [0x67452301, 0xEFCDAB89, 0x98BADCFE, 0x10325476, 0xC3D2E1F0]

  /** Section 5: the logical function f(t; B, C, D) of round t. */
  function F(t: nat, b: bv32, c: bv32, d: bv32): bv32
    requires t < 80
  {
    if t < 20 then (b & c) | (!b & d)
    else if t < 40 then b ^ c ^ d
    else if t < 60 then (b & c) | (b & d) | (c & d)
    else b ^ c ^ d
  }

  /** Section 6: the constant K(t) of round t. */
  function K(t: nat): bv32
    requires t < 80
  {
    if t < 20 then 0x5A827999
    else if t < 40 then 0x6ED9EBA1
    else if t < 60 then 0x8F1BBCDC
    else 0xCA62C1D6
  }

  /** Section 7: a word is four bytes, the most significant first. */
  function WordOf(s: seq<bv8>): bv32
    requires |s| == 4
  {
    ((s[0] as bv32) << 24) | ((s[1] as bv32) << 16) | ((s[2] as bv32) << 8) | (s[3] as bv32)
  }

  /** The four bytes of a word, the most significant first. */
  function BytesOf(x: bv32): (r: seq<bv8>)
    ensures |r| == 4
  {
    [((x >> 24) & 0xFF) as bv8, ((x >> 16) & 0xFF) as bv8, ((x >> 8) & 0xFF) as bv8, (x & 0xFF) as bv8]
  }

  /** Reading a word back from its bytes gives the word. */
  lemma {:induction false} WordOfBytesOf(x: bv32)
    ensures WordOf(BytesOf(x)) == x
  {
  }

  /** Writing out the word read from four bytes gives those bytes. */
  lemma {:induction false} BytesOfWordOf(s: seq<bv8>)
    requires |s| == 4
    ensures BytesOf(WordOf(s)) == s
  {
    var r := BytesOf(WordOf(s));
    assert r[0] == s[0] && r[1] == s[1] && r[2] == s[2] && r[3] == s[3];
  }

  /** Section 7 step a: the sixteen words W(0)..W(15) of a 64-byte block. */
  function BlockWords(block: seq<bv8>): (r: seq<bv32>)
    requires |block| == 64
    ensures |r| == 16
  {
    seq(16, j requires 0 <= j < 16 => WordOf(block[4 * j .. 4 * j + 4]))
  }

  /** Section 7 step b: W(t) = S^1(W(t-3) XOR W(t-8) XOR W(t-14) XOR W(t-16)). */
  function ScheduleWord(w3: bv32, w8: bv32, w14: bv32, w16: bv32): bv32
  {
    (w3 ^ w8 ^ w14 ^ w16).RotateLeft(1)
  }

  /** Word t of the schedule w obeys the recurrence of section 7 step b. */
  ghost predicate Recurrence(w: seq<bv32>, t: nat)
    requires 16 <= t < |w|
  {
    w[t] == ScheduleWord(w[t - 3], w[t - 8], w[t - 14], w[t - 16])
  }

  /** Section 7 step b: continues the message schedule w up to W(79). */
  function Extend(w: seq<bv32>): (r: seq<bv32>)
    requires 16 <= |w| <= 80
    ensures |r| == 80 && r[..|w|] == w
    ensures forall t :: |w| <= t < 80 ==> Recurrence(r, t)
    decreases 80 - |w|
  {
    if |w| == 80 then w
    else
      var n := |w|;
      var next := ScheduleWord(w[n - 3], w[n - 8], w[n - 14], w[n - 16]);
      var r := Extend(w + [next]);
      assert r[..n] == (r[..n + 1])[..n];
      assert Recurrence(r, n);
      r
  }

  /** The 80-word message schedule of a block given as its sixteen words. */
  function Schedule(block: seq<bv32>): (r: seq<bv32>)
    requires |block| == 16
    ensures |r| == 80 && r[..16] == block
    ensures forall t :: 16 <= t < 80 ==> Recurrence(r, t)
  {
    Extend(block)
  }

  /** The working variables A..E. */
  datatype Vars = Vars(a: bv32, b: bv32, c: bv32, d: bv32, e: bv32)

  /** Section 7 step d: TEMP = S^5(A) + f(t;B,C,D) + E + W(t) + K(t), given its five terms. */
  function Temp(a5: bv32, f: bv32, e: bv32, wt: bv32, k: bv32): bv32
  {
    a5 + f + e + wt + k
  }

  /** Section 7 step d: one round. */
  function Round(v: Vars, t: nat, wt: bv32): Vars
    requires t < 80
  {
    Vars(Temp(v.a.RotateLeft(5), F(t, v.b, v.c, v.d), v.e, wt, K(t)), v.a, v.b.RotateLeft(30), v.c, v.d)
  }

  /** The working variables after rounds 0..n-1 starting from v. */
  function Rounds(v: Vars, w: seq<bv32>, n: nat): Vars
    requires n <= 80 <= |w|
  {
    if n == 0 then v else Round(Rounds(v, w, n - 1), n - 1, w[n - 1])
  }

  /** Section 3: the sum of two words modulo 2^32. */
  function Add(x: bv32, y: bv32): bv32
  {
    x + y
  }

  /** Section 7 step e: H0 + A, H1 + B, H2 + C, H3 + D, H4 + E. */
  function AddVars(h: seq<bv32>, v: Vars): (r: seq<bv32>)
    requires |h| == 5
    ensures |r| == 5
  {
    [Add(h[0], v.a), Add(h[1], v.b), Add(h[2], v.c), Add(h[3], v.d), Add(h[4], v.e)]
  }

  /** Section 7 steps b to e: the new chaining value after one block. */
  function Compress(h: seq<bv32>, block: seq<bv32>): (r: seq<bv32>)
    requires |h| == 5 && |block| == 16
    ensures |r| == 5
  {
    var w := Schedule(block);
    AddVars(h, Rounds(Vars(h[0], h[1], h[2], h[3], h[4]), w, |w|))
  }

  /**
   * The chaining value after compressing the complete 64-byte blocks of m, first to last,
   * starting from h; bytes after the last complete block are not used.
   */
  function HashBlocks(h: seq<bv32>, m: seq<bv8>): (r: seq<bv32>)
    requires |h| == 5
    ensures |r| == 5
    decreases |m|
  {
    if |m| < 64 then h else HashBlocks(Compress(h, BlockWords(m[..64])), m[64..])
  }

  /** Sums and differences of multiples of 64 are multiples of 64. */
  lemma {:induction false} MultiplesOf64(x: int, y: int)
    requires x % 64 == 0 && y % 64 == 0
    ensures (x + y) % 64 == 0 && (x - y) % 64 == 0
  {
    assert x == 64 * (x / 64);
    assert y == 64 * (y / 64);
    assert x + y == 64 * (x / 64 + y / 64);
    assert x - y == 64 * (x / 64 - y / 64);
  }

  /** Compressing a + b block by block is compressing a, then b from where a ended. */
  lemma {:induction false} HashBlocksAppend(h: seq<bv32>, a: seq<bv8>, b: seq<bv8>)
    requires |h| == 5 && |a| % 64 == 0
    ensures HashBlocks(h, a + b) == HashBlocks(HashBlocks(h, a), b)
    decreases |a|
  {
    if a == [] {
      assert a + b == b;
    } else {
      MultiplesOf64(|a|, 64);
      var ab := a + b;
      assert ab[..64] == a[..64];
      assert ab[64..] == a[64..] + b;
      HashBlocksAppend(Compress(h, BlockWords(a[..64])), a[64..], b);
    }
  }

  /** A single complete block is compressed once. */
  lemma {:induction false} HashBlocksOne(h: seq<bv32>, block: seq<bv8>)
    requires |h| == 5 && |block| == 64
    ensures HashBlocks(h, block) == Compress(h, BlockWords(block))
  {
    assert block[..64] == block;
    assert |block[64..]| == 0;
  }

  /** A complete block after complete blocks compresses once more. */
  lemma {:induction false} HashBlocksLast(h: seq<bv32>, m: seq<bv8>, block: seq<bv8>)
    requires |h| == 5 && |m| % 64 == 0 && |block| == 64
    ensures HashBlocks(h, m + block) == Compress(HashBlocks(h, m), BlockWords(block))
  {
    HashBlocksAppend(h, m, block);
    HashBlocksOne(HashBlocks(h, m), block);
  }

  /** 2^64: the length field holds the message length in bits modulo this. */
  const TwoTo64: int := 0x1_0000_0000_0000_0000

  /** Section 4: the message length in bits, as the 64-bit length field carries it. */
  function BitLength(msg: seq<bv8>): (r: int)
    ensures 0 <= r < TwoTo64
  {
    (8 * |msg|) % TwoTo64
  }

  /** The bit length of a + b is the sum of the two, modulo 2^64. */
  lemma {:induction false} BitLengthAppend(a: seq<bv8>, b: seq<bv8>)
    ensures BitLength(a + b) == (BitLength(a) + BitLength(b)) % TwoTo64
  {
  }

  /** n zero bytes. */
  function Zeros(n: nat): (r: seq<bv8>)
    ensures |r| == n && forall i :: 0 <= i < n ==> r[i] == 0
  {
    seq(n, _ => 0)
  }

  /** The byte of l that counts in units of unit (a power of 256). */
  function ByteAt(l: int, unit: int): (r: bv8)
    requires 0 <= l && 0 < unit
  {
    ((l / unit) % 256) as bv8
  }

  /** Section 4 c: the length field, the 64-bit number l written out most significant byte first. */
  function LengthBytes(l: int): (r: seq<bv8>)
    requires 0 <= l < TwoTo64
    ensures |r| == 8
  {
    [ByteAt(l, 0x100_0000_0000_0000), ByteAt(l, 0x1_0000_0000_0000), ByteAt(l, 0x100_0000_0000),
     ByteAt(l, 0x1_0000_0000), ByteAt(l, 0x100_0000), ByteAt(l, 0x1_0000), ByteAt(l, 0x100), ByteAt(l, 1)]
  }

  /** Number of zero bytes section 4 puts between the 0x80 byte and the length field. */
  function ZeroCount(n: nat): (k: nat)
    ensures k < 64 && (n + 1 + k) % 64 == 56
  {
    (55 - n) % 64
  }

  /**
   * Section 4: the message, a 1 bit (the byte 0x80), the fewest zero bytes that leave
   * room for the length field in the last block, and the 64-bit length l.
   */
  function Pad(msg: seq<bv8>, l: int): (r: seq<bv8>)
    requires 0 <= l < TwoTo64
    ensures |r| % 64 == 0 && |msg| + 9 <= |r| < |msg| + 73
    ensures r[..|msg|] == msg && r[|msg|] == 0x80
    ensures forall i :: |msg| < i < |r| - 8 ==> r[i] == 0
    ensures r[|r| - 8..] == LengthBytes(l)
  {
    var r := msg + [0x80] + Zeros(ZeroCount(|msg|)) + LengthBytes(l);
    assert r[..|msg|] == msg;
    assert r[|r| - 8..] == LengthBytes(l);
    r
  }

  /** Section 7, last step: the 160-bit message digest H0 H1 H2 H3 H4, each word big-endian. */
  function DigestBytes(h: seq<bv32>): (r: seq<bv8>)
    requires |h| == 5
    ensures |r| == 20
    ensures forall i :: 0 <= i < 20 ==> r[i] == BytesOf(h[i / 4])[i % 4]
  {
    var r := BytesOf(h[0]) + BytesOf(h[1]) + BytesOf(h[2]) + BytesOf(h[3]) + BytesOf(h[4]);
    forall i | 0 <= i < 20 ensures r[i] == BytesOf(h[i / 4])[i % 4] {
      assert i / 4 == 0 || i / 4 == 1 || i / 4 == 2 || i / 4 == 3 || i / 4 == 4;
    }
    r
  }

  /** The digest of msg when the length field carries l. */
  function HashWithLength(msg: seq<bv8>, l: int): (r: seq<bv8>)
    requires 0 <= l < TwoTo64
    ensures |r| == 20
  {
    DigestBytes(HashBlocks(InitialHash, Pad(msg, l)))
  }

  /** The SHA-1 digest of msg. */
  function Sha1(msg: seq<bv8>): (r: seq<bv8>)
    ensures |r| == 20
  {
    HashWithLength(msg, BitLength(msg))
  }
}
