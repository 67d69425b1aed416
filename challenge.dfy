/**
 * The SHA1 class of org.openymsg.network.challenge: a streaming SHA-1 whose state is
 * the chaining array m_h, the block and schedule array m_w, the count m_iLenW of bytes
 * in the current block and the bit count m_lBitCount. Every method is proved against
 * the pure definitions of module Fips180 through the per-byte step of module Sha1Steps.
 */
module Challenge {
  import opened Fips180
  import opened Sha1Steps

  /** Java's long: the range setBitCount accepts. */
  const MinLong: int := -0x8000_0000_0000_0000
  const MaxLong: int := 0x7FFF_FFFF_FFFF_FFFF

  /** s_pad0x80 and s_pad0x00: the one-byte arrays digest absorbs while padding; nothing writes them. */
  const Pad0x80: seq<bv8> := [0x80]
  const Pad0x00: seq<bv8> := [0x00]

  /** The bytes update reads for an offset and a length, as the callers of a digest expect. */
  function Span(bytes: seq<bv8>, off: int, len: int): (r: seq<bv8>)
    requires 0 <= off && 0 <= len && off + len <= |bytes|
    ensures |r| == len
  {
    bytes[off..off + len]
  }

  /** update(bytes, off, n) reads n - off bytes, not n: from offset 1 with n = 2 it reads one byte of three. */
  lemma {:induction false} UpdateOffsetReadsTooLittle()
    ensures Slice([1, 2, 3], 1, 2) == [2]
    ensures Span([1, 2, 3], 1, 2) == [2, 3]
  {
    assert [1, 2, 3][1..2] == [2 as bv8];
    assert [1, 2, 3][1..3] == [2 as bv8, 3];
  }

  /** Passing off + len as the end reads the len bytes at off. */
  lemma {:induction false} SliceSpan(bytes: seq<bv8>, off: int, len: int)
    requires 0 <= off && 0 <= len && off + len <= |bytes|
    ensures Slice(bytes, off, off + len) == Span(bytes, off, len)
  {
    SliceIsRange(bytes, off, off + len);
  }

  /** From offset 0 the two readings agree, so update(bytes) and digest read what they mean to. */
  lemma {:induction false} SliceFromZero(bytes: seq<bv8>, len: int)
    requires 0 <= len <= |bytes|
    ensures Slice(bytes, 0, len) == Span(bytes, 0, len)
  {
    SliceSpan(bytes, 0, len);
  }

  /** update(bytes, off, end) with end <= off absorbs nothing, so the state does not change. */
  lemma {:induction false} EmptyRangeKeepsState(s: State, bytes: seq<bv8>, off: int, end: int)
    requires WellFormed(s) && end <= off
    ensures Feed(s, Slice(bytes, off, end)) == s
  {
  }

  /**
   * update(bytes, 0, k) followed by update(bytes, k, |bytes|) leaves the state that
   * update(bytes, 0, |bytes|) leaves, wherever the buffer is split.
   */
  lemma {:induction false} SplitUpdate(s: State, bytes: seq<bv8>, k: int)
    requires WellFormed(s) && 0 <= k <= |bytes|
    ensures Feed(Feed(s, Slice(bytes, 0, k)), Slice(bytes, k, |bytes|)) == Feed(s, Slice(bytes, 0, |bytes|))
  {
    SliceIsRange(bytes, 0, k);
    SliceIsRange(bytes, k, |bytes|);
    SliceIsRange(bytes, 0, |bytes|);
    assert bytes[0..k] + bytes[k..|bytes|] == bytes[0..|bytes|];
    FeedAppend(s, Slice(bytes, 0, k), Slice(bytes, k, |bytes|));
  }

  /** Zero bytes counted up to the first that makes the block hold 56 bytes are ZeroCount of them. */
  lemma {:induction false} ZeroCountLeast(n: nat, k: nat)
    requires k <= ZeroCount(n) && (n + 1 + k) % 64 == 56
    ensures k == ZeroCount(n)
  {
    var z := ZeroCount(n);
    assert (n + 1 + z) % 64 == 56;
    assert (n + 1 + z) - (n + 1 + k) == z - k;
    assert n + 1 + k == 64 * ((n + 1 + k) / 64) + 56;
    assert n + 1 + z == 64 * ((n + 1 + z) / 64) + 56;
    assert z - k == 64 * ((n + 1 + z) / 64 - (n + 1 + k) / 64);
  }

  /** The absorbed bytes while digest pads: the message, the 0x80 byte and k zero bytes. */
  function PadPrefix(msg: seq<bv8>, k: nat): (r: seq<bv8>)
    ensures |r| == |msg| + 1 + k
  {
    msg + [0x80] + Zeros(k)
  }

  /** Absorbing the 0x80 byte after the message starts the padding. */
  lemma {:induction false} PadPrefixStart(msg: seq<bv8>, m: seq<bv8>, piece: seq<bv8>)
    requires piece == [0x80] && m == msg + piece
    ensures m == PadPrefix(msg, 0)
  {
  }

  /** Absorbing one more zero byte. */
  lemma {:induction false} PadPrefixZero(msg: seq<bv8>, k: nat, m: seq<bv8>, piece: seq<bv8>)
    requires piece == [0x00] && m == PadPrefix(msg, k) + piece
    ensures m == PadPrefix(msg, k + 1)
  {
    assert Zeros(k) + [0x00] == Zeros(k + 1);
  }

  /** Absorbing the length field after ZeroCount zero bytes completes the padded message. */
  lemma {:induction false} PadPrefixLength(msg: seq<bv8>, k: nat, l: int, m: seq<bv8>, piece: seq<bv8>)
    requires k == ZeroCount(|msg|) && 0 <= l < TwoTo64
    requires piece == LengthBytes(l) && m == PadPrefix(msg, k) + piece
    ensures m == Pad(msg, l)
  {
  }

  /** While the block does not hold 56 bytes, fewer than ZeroCount zero bytes have been absorbed. */
  lemma {:induction false} ZeroCountMore(n: nat, k: nat, lenW: int)
    requires k <= ZeroCount(n) && lenW == (n + 1 + k) % 64 && lenW != 56
    ensures k < ZeroCount(n)
  {
  }

  /** digest's (byte) (x >> 24): the high-order byte of a word, the first of its big-endian bytes. */
  function TopByte(x: bv32): (r: bv8)
    ensures r == BytesOf(x)[0]
  {
    (x >> 24) as bv8
  }

  /** digest's x <<= 8: the low three bytes move up one place and the low byte becomes zero. */
  function ShiftByte(x: bv32): (r: bv32)
    ensures BytesOf(r) == BytesOf(x)[1..] + [0]
  {
    x << 8
  }

  /** A word after r of digest's left shifts by 8. */
  function Drained(x: bv32, r: nat): bv32
    requires r < 4
  {
    if r == 0 then x else ShiftByte(Drained(x, r - 1))
  }

  /** The top byte of a word after r of digest's shifts is byte r of the word, big-endian. */
  lemma {:induction false} DrainByte(x: bv32, r: nat)
    requires r < 4
    ensures TopByte(Drained(x, r)) == BytesOf(x)[r]
  {
    DrainedUnfold(x);
    if r == 1 {
      TopSecond(x);
    } else if r == 2 {
      TopThird(x);
    } else {
      TopFourth(x);
    }
  }

  /** Drained written out for one, two and three shifts. */
  lemma {:induction false} DrainedUnfold(x: bv32)
    ensures Drained(x, 1) == ShiftByte(x)
    ensures Drained(x, 2) == ShiftByte(ShiftByte(x))
    ensures Drained(x, 3) == ShiftByte(ShiftByte(ShiftByte(x)))
  {
    assert Drained(x, 1) == ShiftByte(x);
    assert Drained(x, 2) == ShiftByte(ShiftByte(x));
  }

  /** The top byte of the word after one, two and three shifts is its next byte in order. */
  lemma {:induction false} TopSecond(x: bv32)
    ensures TopByte(ShiftByte(x)) == BytesOf(x)[1]
  {
  }

  lemma {:induction false} TopThird(x: bv32)
    ensures TopByte(ShiftByte(ShiftByte(x))) == BytesOf(x)[2]
  {
  }

  lemma {:induction false} TopFourth(x: bv32)
    ensures TopByte(ShiftByte(ShiftByte(ShiftByte(x)))) == BytesOf(x)[3]
  {
  }

  /** H after the first i steps of digest's output loop: words before i / 4 drained to zero, word i / 4 partly. */
  function Drain(hs: seq<bv32>, i: nat): (r: seq<bv32>)
    requires |hs| == 5 && i <= 20
    ensures |r| == 5
    ensures forall j :: 0 <= j < i / 4 ==> r[j] == 0
    ensures forall j :: i / 4 < j < 5 ==> r[j] == hs[j]
  {
    seq(5, j requires 0 <= j < 5 => if j < i / 4 then 0 else if j == i / 4 then Drained(hs[j], i % 4) else hs[j])
  }

  /** One step of the output loop reads byte i of the digest and leaves H as after i + 1 steps. */
  lemma {:induction false} DrainStep(hs: seq<bv32>, i: nat)
    requires |hs| == 5 && i < 20
    ensures TopByte(Drain(hs, i)[i / 4]) == DigestBytes(hs)[i]
    ensures Drain(hs, i)[i / 4 := ShiftByte(Drain(hs, i)[i / 4])] == Drain(hs, i + 1)
  {
    DrainRead(hs, i);
    QuarterStep(i);
    if i % 4 < 3 {
      DrainWithin(hs, i);
    } else {
      DrainAcross(hs, i);
    }
  }

  /** The byte the loop reads at step i is byte i of the digest. */
  lemma {:induction false} DrainRead(hs: seq<bv32>, i: nat)
    requires |hs| == 5 && i < 20
    ensures TopByte(Drain(hs, i)[i / 4]) == DigestBytes(hs)[i]
  {
    DrainByte(hs[i / 4], i % 4);
  }

  /** Shifting a word that is not yet drained moves to the next step within the word. */
  lemma {:induction false} DrainWithin(hs: seq<bv32>, i: nat)
    requires |hs| == 5 && i < 20 && i % 4 < 3 && (i + 1) / 4 == i / 4 && (i + 1) % 4 == i % 4 + 1
    ensures Drain(hs, i)[i / 4 := ShiftByte(Drain(hs, i)[i / 4])] == Drain(hs, i + 1)
  {
  }

  /** The fourth shift of a word leaves it zero and moves on to the next word. */
  lemma {:induction false} DrainAcross(hs: seq<bv32>, i: nat)
    requires |hs| == 5 && i < 20 && i % 4 == 3 && (i + 1) / 4 == i / 4 + 1 && (i + 1) % 4 == 0
    ensures Drain(hs, i)[i / 4 := ShiftByte(Drain(hs, i)[i / 4])] == Drain(hs, i + 1)
  {
    DrainLast(hs[i / 4]);
  }

  /** Four shifts by 8 clear a word. */
  lemma {:induction false} DrainLast(x: bv32)
    ensures ShiftByte(Drained(x, 3)) == 0
  {
    DrainedUnfold(x);
    ShiftFour(x);
  }

  lemma {:induction false} ShiftFour(x: bv32)
    ensures ShiftByte(ShiftByte(ShiftByte(ShiftByte(x)))) == 0
  {
  }

  /** How i / 4 and i % 4 move when i goes up by one. */
  lemma {:induction false} QuarterStep(i: nat)
    ensures i % 4 < 3 ==> (i + 1) / 4 == i / 4 && (i + 1) % 4 == i % 4 + 1
    ensures i % 4 == 3 ==> (i + 1) / 4 == i / 4 + 1 && (i + 1) % 4 == 0
  {
  }

  /** Writing d[i] at index i of a sequence agreeing with d before i extends the agreement. */
  lemma {:induction false} PrefixStep(a: seq<bv8>, b: seq<bv8>, d: seq<bv8>, i: nat)
    requires i < |a| == |b| == |d| && a[..i] == d[..i] && b == a[i := d[i]]
    ensures b[..i + 1] == d[..i + 1]
  {
    assert b[..i + 1] == a[..i] + [d[i]];
    assert d[..i + 1] == d[..i] + [d[i]];
  }

  /** Sequences of one length that agree on all their indices are equal. */
  lemma {:induction false} PrefixAll(a: seq<bv8>, d: seq<bv8>)
    requires |a| == |d| && a[..|a|] == d[..|d|]
    ensures a == d
  {
    assert a == a[..|a|] && d == d[..|d|];
  }

  /** One element more of the bytes update reads. */
  lemma {:induction false} SliceExtend(bytes: seq<bv8>, off: int, i: int)
    requires 0 <= off <= i < |bytes|
    ensures Slice(bytes, off, i + 1) == Slice(bytes, off, i) + [bytes[i]]
  {
  }

  class Sha1 {
    /** m_h: the chaining value H0..H4. */
    const h: array<bv32>
    /** m_w: the words of the block being filled (0..15) and the message schedule (16..79). */
    const w: array<bv32>
    /** m_iLenW: the number of bytes of the current block absorbed so far. */
    var lenW: int
    /** m_lBitCount: the 64-bit pattern of the Java long, read as an unsigned number. */
    var bitCount: int
    /** The bytes absorbed since the object was made or last reset. */
    ghost var absorbed: seq<bv8>

    /** The fields as a value of the per-byte model. */
    ghost function Snapshot(): State
      reads this, h, w
    {
      State(h[..], w[..], lenW, bitCount)
    }

    /** The two arrays have their sizes and are distinct. */
    ghost predicate Shaped()
      reads this
    {
      h.Length == 5 && w.Length == 80 && h != w
    }

    /** The fields are the state the absorbed bytes lead to. */
    ghost predicate Valid()
      reads this, h, w
    {
      Shaped() && Tracks(Snapshot(), absorbed)
    }

    /** SHA1(): a fresh object in the initial state. */
    constructor()
      ensures Valid() && Snapshot() == Initial() && absorbed == []
      ensures fresh(h) && fresh(w)
    {
      h := new bv32[5];
      w := new bv32[80];
      // Java's default field values.
      lenW, bitCount, absorbed := 0, 0, [];
      new;
      InitH();
      InitW();
      assert w[..] == Initial().w;
      assert Snapshot() == Initial();
      InitialTracks(Snapshot(), absorbed);
    }

    /** reset(): clear both counters and return H and W to their initial values. */
    method Reset()
      requires Shaped()
      modifies this, h, w
      ensures Valid() && Snapshot() == Initial() && absorbed == []
    {
      bitCount := 0;
      lenW := 0;
      InitH();
      InitW();
      absorbed := [];
      assert w[..] == Initial().w;
      InitialTracks(Snapshot(), absorbed);
    }

    /** initH(): H takes the initial chaining value of section 7 of FIPS 180-1. */
    method InitH()
      requires h.Length == 5
      modifies h
      ensures h[..] == InitialHash
    {
      h[0] := 0x67452301;
      h[1] := 0xEFCDAB89;
      h[2] := 0x98BADCFE;
      h[3] := 0x10325476;
      h[4] := 0xC3D2E1F0;
    }

    /** initW(): every word of W becomes zero. */
    method InitW()
      modifies w
      ensures forall i :: 0 <= i < w.Length ==> w[i] == 0
    {
      var i := 0;
      while i < w.Length
        invariant 0 <= i <= w.Length
        invariant forall k :: 0 <= k < i ==> w[k] == 0
      {
        w[i] := 0;
        i := i + 1;
      }
    }

    /**
     * hashBlock(): extend W(0..15) to the 80-word schedule and add the working
     * variables after the 80 rounds into H; the block words W(0..15) are left as they were.
     */
    method HashBlock()
      requires Shaped()
      modifies h, w
      ensures w[..] == Schedule(old(w[..16]))
      ensures h[..] == Compress(old(h[..]), old(w[..16]))
    {
      ghost var block := w[..16];
      ExpandSchedule();
      var v := Vars(h[0], h[1], h[2], h[3], h[4]);
      ghost var v0 := v;
      v := RoundsOne(v);
      v := RoundsTwo(v0, v);
      v := RoundsThree(v0, v);
      v := RoundsFour(v0, v);
      CompressStep(h[..], block, v);
      AddWorking(v);
    }

    /** hashBlock's round 1 loop, t = 0..19: f is the choice function written with xor, K = 5A827999. */
    method RoundsOne(v: Vars) returns (r: Vars)
      requires Shaped()
      ensures r == Rounds(v, w[..], 20)
    {
      var a, b, c, d, e := v.a, v.b, v.c, v.d, v.e;
      var t := 0;
      while t <= 19
        invariant 0 <= t <= 20
        invariant Vars(a, b, c, d, e) == Rounds(v, w[..], t)
      {
        RoundOneStep(Vars(a, b, c, d, e), t, w[t]);
        var temp := Temp(ShaRotl(a, 5), Round1F(b, c, d), e, w[t], 0x5A827999);
        e := d;
        d := c;
        c := ShaRotl(b, 30);
        b := a;
        a := temp;
        t := t + 1;
      }
      r := Vars(a, b, c, d, e);
    }

    /** hashBlock's round 2 loop, t = 20..39: f is parity, K = 6ED9EBA1. */
    method RoundsTwo(ghost v0: Vars, v: Vars) returns (r: Vars)
      requires Shaped() && v == Rounds(v0, w[..], 20)
      ensures r == Rounds(v0, w[..], 40)
    {
      var a, b, c, d, e := v.a, v.b, v.c, v.d, v.e;
      var t := 20;
      while t <= 39
        invariant 20 <= t <= 40
        invariant Vars(a, b, c, d, e) == Rounds(v0, w[..], t)
      {
        RoundTwoStep(Vars(a, b, c, d, e), t, w[t]);
        var temp := Temp(ShaRotl(a, 5), Parity(b, c, d), e, w[t], 0x6ED9EBA1);
        e := d;
        d := c;
        c := ShaRotl(b, 30);
        b := a;
        a := temp;
        t := t + 1;
      }
      r := Vars(a, b, c, d, e);
    }

    /** hashBlock's round 3 loop, t = 40..59: f is majority written with and/or, K = 8F1BBCDC. */
    method RoundsThree(ghost v0: Vars, v: Vars) returns (r: Vars)
      requires Shaped() && v == Rounds(v0, w[..], 40)
      ensures r == Rounds(v0, w[..], 60)
    {
      var a, b, c, d, e := v.a, v.b, v.c, v.d, v.e;
      var t := 40;
      while t <= 59
        invariant 40 <= t <= 60
        invariant Vars(a, b, c, d, e) == Rounds(v0, w[..], t)
      {
        RoundThreeStep(Vars(a, b, c, d, e), t, w[t]);
        var temp := Temp(ShaRotl(a, 5), Round3F(b, c, d), e, w[t], 0x8F1BBCDC);
        e := d;
        d := c;
        c := ShaRotl(b, 30);
        b := a;
        a := temp;
        t := t + 1;
      }
      r := Vars(a, b, c, d, e);
    }

    /** hashBlock's round 4 loop, t = 60..79: f is parity, K = CA62C1D6. */
    method RoundsFour(ghost v0: Vars, v: Vars) returns (r: Vars)
      requires Shaped() && v == Rounds(v0, w[..], 60)
      ensures r == Rounds(v0, w[..], 80)
    {
      var a, b, c, d, e := v.a, v.b, v.c, v.d, v.e;
      var t := 60;
      while t <= 79
        invariant 60 <= t <= 80
        invariant Vars(a, b, c, d, e) == Rounds(v0, w[..], t)
      {
        RoundFourStep(Vars(a, b, c, d, e), t, w[t]);
        var temp := Temp(ShaRotl(a, 5), Parity(b, c, d), e, w[t], 0xCA62C1D6);
        e := d;
        d := c;
        c := ShaRotl(b, 30);
        b := a;
        a := temp;
        t := t + 1;
      }
      r := Vars(a, b, c, d, e);
    }

    /** hashBlock's first loop: W(16..79) from the recurrence of FIPS 180-1, in place. */
    method ExpandSchedule()
      requires Shaped()
      modifies w
      ensures w[..] == Schedule(old(w[..16]))
    {
      ghost var sched := Schedule(w[..16]);
      var t := 16;
      while t <= 79
        invariant 16 <= t <= 80
        invariant forall j :: 0 <= j < t ==> w[j] == sched[j]
      {
        assert Recurrence(sched, t);
        ScheduleStep(w[t - 3], w[t - 8], w[t - 14], w[t - 16]);
        w[t] := ShaRotl(w[t - 3] ^ w[t - 8] ^ w[t - 14] ^ w[t - 16], 1);
        t := t + 1;
      }
      assert w[..] == sched;
    }

    /** hashBlock's last statements: each word of H has the working variable of its place added. */
    method AddWorking(v: Vars)
      requires Shaped()
      modifies h
      ensures h[..] == AddVars(old(h[..]), v)
    {
      ghost var h0 := h[..];
      h[0] := Add(h[0], v.a);
      h[1] := Add(h[1], v.b);
      h[2] := Add(h[2], v.c);
      h[3] := Add(h[3], v.d);
      h[4] := Add(h[4], v.e);
      FiveWords(h[..], AddVars(h0, v));
    }

    /**
     * The body of update's loop for one byte x: push it into word lenW / 4, count it,
     * run hashBlock and start a new block when it is the 64th, and add 8 to the bit count.
     */
    method AbsorbOne(x: bv8)
      requires Shaped() && WellFormed(Snapshot())
      modifies this, h, w
      ensures Snapshot() == AbsorbByte(old(Snapshot()), x)
      ensures absorbed == old(absorbed)
    {
      ghost var s := Snapshot();
      w[lenW / 4] := Push(w[lenW / 4], x);
      assert w[..] == s.w[s.lenW / 4 := Push(s.w[s.lenW / 4], x)];
      lenW := lenW + 1;
      if lenW % 64 == 0 {
        AbsorbByteAtEnd(s, x);
        HashBlock();
        lenW := 0;
      } else {
        AbsorbByteInBlock(s, x);
      }
      bitCount := (bitCount + 8) % TwoTo64;
    }

    /**
     * update(bytes, off, n) as written: the loop runs from off up to n, so it absorbs
     * bytes[off..n) when off < n and nothing otherwise, one byte at a time.
     */
    method UpdateRange(bytes: seq<bv8>, off: int, n: int)
      requires Valid()
      requires off < n ==> 0 <= off && n <= |bytes|
      modifies this, h, w
      ensures Valid() && absorbed == old(absorbed) + Slice(bytes, off, n)
      ensures bitCount == Counted(old(bitCount), Slice(bytes, off, n))
    {
      ghost var s0, m0 := Snapshot(), absorbed;
      ghost var done: seq<bv8> := [];
      var i := off;
      while i < n
        invariant off <= i && (i == off || i <= n)
        invariant Shaped()
        invariant done == Slice(bytes, off, i)
        invariant absorbed == m0 + done
        invariant Snapshot() == Feed(s0, done)
        decreases n - i
      {
        AbsorbOne(bytes[i]);
        FeedLast(s0, done, bytes[i]);
        SliceExtend(bytes, off, i);
        done := done + [bytes[i]];
        absorbed := m0 + done;
        i := i + 1;
      }
      assert done == Slice(bytes, off, n);
      FeedFrom(s0, m0, done);
    }

    /** The intended update(bytes, off, len): absorbs the len bytes starting at off. */
    method UpdateSpan(bytes: seq<bv8>, off: int, len: int)
      requires Valid()
      requires 0 <= off && 0 <= len && off + len <= |bytes|
      modifies this, h, w
      ensures Valid() && absorbed == old(absorbed) + Span(bytes, off, len)
      ensures bitCount == Counted(old(bitCount), Span(bytes, off, len))
    {
      SliceSpan(bytes, off, len);
      UpdateRange(bytes, off, off + len);
    }

    /** update(bytes): absorbs all of bytes. */
    method Update(bytes: seq<bv8>)
      requires Valid()
      modifies this, h, w
      ensures Valid() && absorbed == old(absorbed) + bytes
      ensures bitCount == Counted(old(bitCount), bytes)
    {
      assert Span(bytes, 0, |bytes|) == bytes;
      UpdateSpan(bytes, 0, |bytes|);
    }

    /** setBitCount(c): the bit count becomes c's 64-bit pattern; nothing else changes. */
    method SetBitCount(c: int)
      requires Valid()
      requires MinLong <= c <= MaxLong
      modifies this
      ensures Valid()
      ensures bitCount == c % TwoTo64
      ensures h[..] == old(h[..]) && w[..] == old(w[..]) && lenW == old(lenW)
      ensures absorbed == old(absorbed)
    {
      bitCount := c % TwoTo64;
    }

    /**
     * digest(): pad the absorbed bytes as section 4 of FIPS 180-1 says, with the bit
     * count as it stood on entry, read H out big-endian, and reset. When the bit count
     * is the length of the absorbed bytes the result is their SHA-1 digest.
     */
    method Digest() returns (hashout: array<bv8>)
      requires Valid()
      modifies this, h, w
      ensures fresh(hashout)
      ensures hashout[..] == HashWithLength(old(absorbed), old(bitCount))
      ensures old(bitCount) == BitLength(old(absorbed)) ==> hashout[..] == Fips180.Sha1(old(absorbed))
      ensures Valid() && Snapshot() == Initial() && absorbed == []
    {
      ghost var msg, count := absorbed, bitCount;
      var padlen := LengthPad();
      UpdateRange(Pad0x80, 0, 1);
      PadPrefixStart(msg, absorbed, Slice(Pad0x80, 0, 1));
      PadZeros(msg);
      UpdateRange(padlen[..], 0, 8);
      PadPrefixLength(msg, ZeroCount(|msg|), count, absorbed, Slice(padlen[..], 0, 8));
      TracksBlocks(Snapshot(), absorbed);

      hashout := ReadOut();
      Reset();
    }

    /** digest's padlen: the bit count written out as eight bytes, most significant first. */
    method LengthPad() returns (padlen: array<bv8>)
      requires 0 <= bitCount < TwoTo64
      ensures fresh(padlen)
      ensures padlen[..] == LengthBytes(bitCount)
    {
      padlen := new bv8[8];
      padlen[0] := ByteAt(bitCount, 0x100_0000_0000_0000);
      padlen[1] := ByteAt(bitCount, 0x1_0000_0000_0000);
      padlen[2] := ByteAt(bitCount, 0x100_0000_0000);
      padlen[3] := ByteAt(bitCount, 0x1_0000_0000);
      padlen[4] := ByteAt(bitCount, 0x100_0000);
      padlen[5] := ByteAt(bitCount, 0x1_0000);
      padlen[6] := ByteAt(bitCount, 0x100);
      padlen[7] := ByteAt(bitCount, 1);
      EightBytes(padlen[..], LengthBytes(bitCount));
    }

    /**
     * digest's while loop: absorb zero bytes until the block holds 56 bytes, which takes
     * exactly as many as section 4 of FIPS 180-1 puts before the length field.
     */
    method PadZeros(ghost msg: seq<bv8>)
      requires Valid() && absorbed == PadPrefix(msg, 0)
      modifies this, h, w
      ensures Valid() && absorbed == PadPrefix(msg, ZeroCount(|msg|))
    {
      ghost var k := 0;
      while lenW != 56
        invariant Valid()
        invariant k <= ZeroCount(|msg|)
        invariant absorbed == PadPrefix(msg, k)
        decreases ZeroCount(|msg|) - k
      {
        ZeroCountMore(|msg|, k, lenW);
        UpdateRange(Pad0x00, 0, 1);
        PadPrefixZero(msg, k, absorbed, Slice(Pad0x00, 0, 1));
        k := k + 1;
      }
      ZeroCountLeast(|msg|, k);
    }

    /**
     * digest's output loop: byte i is the top byte of H(i / 4), which is then shifted left
     * by 8, so that H is read out big-endian.
     */
    method ReadOut() returns (hashout: array<bv8>)
      requires h.Length == 5
      modifies h
      ensures fresh(hashout)
      ensures hashout[..] == DigestBytes(old(h[..]))
    {
      ghost var hs := h[..];
      ghost var d := DigestBytes(hs);
      hashout := new bv8[20];
      var i := 0;
      while i < 20
        invariant 0 <= i <= 20
        invariant h[..] == Drain(hs, i)
        invariant hashout[..i] == d[..i]
      {
        DrainStep(hs, i);
        ghost var before := hashout[..];
        hashout[i] := TopByte(h[i / 4]);
        PrefixStep(before, hashout[..], d, i);
        h[i / 4] := ShiftByte(h[i / 4]);
        i := i + 1;
      }
      PrefixAll(hashout[..], d);
    }
  }

  /** Counting a and then b from zero counts the bits of a + b. */
  lemma {:induction false} CountedChain(a: seq<bv8>, b: seq<bv8>)
    ensures Counted(Counted(0, a), b) == BitLength(a + b)
  {
    BitLengthAppend(a, b);
  }

  /** A fresh object after update(a) and then update(b) has absorbed a + b and counted its bits. */
  method UpdateTwice(a: seq<bv8>, b: seq<bv8>) returns (sha: Sha1)
    ensures fresh(sha) && fresh(sha.h) && fresh(sha.w)
    ensures sha.Valid() && sha.absorbed == a + b && sha.bitCount == BitLength(a + b)
  {
    sha := new Sha1();
    sha.Update(a);
    assert sha.absorbed == a;
    sha.Update(b);
    CountedChain(a, b);
  }

  /** Counting bytes from zero counts exactly their bits. */
  lemma {:induction false} CountedFromZero(bytes: seq<bv8>)
    ensures Counted(0, bytes) == BitLength(bytes)
  {
  }

  /**
   * A fresh object fed a in one update and b in another digests to the SHA-1 of a + b:
   * how the input is split into calls does not change the digest.
   */
  method DigestOfTwoUpdates(a: seq<bv8>, b: seq<bv8>) returns (d: seq<bv8>)
    ensures d == Fips180.Sha1(a + b)
  {
    var sha := UpdateTwice(a, b);
    var hashout := sha.Digest();
    d := hashout[..];
  }

  /**
   * An object in its initial state, given bytes in one update and then asked for its
   * digest, returns their SHA-1 and is back in its initial state.
   */
  method DigestFromInitial(sha: Sha1, bytes: seq<bv8>) returns (d: seq<bv8>)
    requires sha.Valid() && sha.Snapshot() == Initial() && sha.absorbed == []
    modifies sha, sha.h, sha.w
    ensures d == Fips180.Sha1(bytes)
    ensures sha.Valid() && sha.Snapshot() == Initial() && sha.absorbed == []
  {
    sha.Update(bytes);
    assert sha.absorbed == bytes;
    CountedFromZero(bytes);
    var hashout := sha.Digest();
    d := hashout[..];
  }

  /** After digest the object starts over: a second digest covers only the later bytes. */
  method DigestTwice(a: seq<bv8>, b: seq<bv8>) returns (d1: seq<bv8>, d2: seq<bv8>)
    ensures d1 == Fips180.Sha1(a) && d2 == Fips180.Sha1(b)
  {
    var sha := new Sha1();
    d1 := DigestFromInitial(sha, a);
    d2 := DigestFromInitial(sha, b);
  }
}
