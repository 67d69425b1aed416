# SHA1 (org.openymsg.network.challenge) in Dafny

This project models the streaming SHA-1 class of OpenYMSG. The class hashes a byte stream
incrementally and produces the 20-byte digest of FIPS 180-1 (restated in RFC 3174). Its state is:

- `m_h`: five chaining words;
- `m_w`: an 80-word array, which holds the block being filled and then the message schedule;
- `m_iLenW`: the number of bytes in the current block;
- `m_lBitCount`: the 64-bit bit count.

The project has three modules, one file each.

- `fips180.dfy`, module `Fips180`: SHA-1 written as pure functions, following FIPS 180-1.
  - `Pad` is FIPS 180-1 section 4 (padding).
  - `Compress`, `Schedule` and `Rounds` are FIPS 180-1 section 7 (compression).
  - `HashBlocks` chains complete blocks.
  - `Sha1` is the digest of a message.
  - This module is the reference that the class is proved against.
- `sha1_steps.dfy`, module `Sha1Steps`:
  - the class's own word operations: `ShaRotl` and the round functions as the code writes them;
  - the class state as a value (`State`);
  - one pass of `update`'s loop as a function (`AbsorbByte`), and its iteration (`Feed`);
  - the invariant `Tracks(s, m)`. It says the state is the one the bytes `m` lead to:
    - H chains every complete block of `m`;
    - lenW counts the bytes of the incomplete block;
    - those bytes are packed big-endian into W.
- `challenge.dfy`, module `Challenge`:
  - class `Sha1`, with `array<bv32>` fields `h` and `w` and integer fields `lenW` and `bitCount`;
  - a ghost field `absorbed`, the bytes absorbed since the last reset;
  - one method per Java method, plus the loops of `hashBlock` and `digest` as methods of their own.

Main results:

- **Every operation keeps `Valid()`.** `Valid()` is `Tracks(Snapshot(), absorbed)`.
- **`update` adds 8 bits per byte to the count.** Each absorbed byte adds 8 to the bit count, modulo 2^64.
- **`Digest` returns `HashWithLength(absorbed, bitCount)`.** That is the FIPS 180-1 hash of the absorbed bytes, padded with the bit count the object holds. When the bit count is the length of the absorbed bytes (no `setBitCount` in between), the result is `Fips180.Sha1(absorbed)`.
- **`Digest` leaves the object in its initial state.**
- **Splitting the input and reusing the object.** A new object given a and then b in two `update` calls digests to `Fips180.Sha1(a + b)` (`DigestOfTwoUpdates`). After `digest` the same object hashes the next input from scratch (`DigestTwice`).

The Java `long` bit count is held as its 64-bit pattern, read as an unsigned number in `0 .. 2^64 - 1`. Java's `int` words are `bv32`, so `+=` wraps as in Java. Byte arrays that are passed in are sequences of `bv8`.

## Model

| member | source | states |
|---|---|---|
| Challenge.Sha1.constructor | AYmsg/src/org/openymsg/network/challenge/SHA1.java:50-55 | a new object has H = the FIPS initial value, W all zero, both counters zero, nothing absorbed, and is `Valid` |
| Challenge.Sha1.Reset | AYmsg/src/org/openymsg/network/challenge/SHA1.java:60-65 | after reset the fields are exactly the initial state and the object tracks the empty message |
| Challenge.Sha1.InitH | AYmsg/src/org/openymsg/network/challenge/SHA1.java:132-138 | H becomes 67452301, EFCDAB89, 98BADCFE, 10325476, C3D2E1F0, the initial value of FIPS 180-1 section 7 |
| Challenge.Sha1.InitW | AYmsg/src/org/openymsg/network/challenge/SHA1.java:140-143 | every one of the 80 words of W is zero afterwards |
| Challenge.Sha1.Update | AYmsg/src/org/openymsg/network/challenge/SHA1.java:70-72 | all of `bytes` is appended to the absorbed bytes, the object stays `Valid`, and the bit count grows by 8 per byte modulo 2^64 |
| Challenge.Sha1.UpdateRange | AYmsg/src/org/openymsg/network/challenge/SHA1.java:74-85 | as written: the loop absorbs `Slice(bytes, off, end)`, i.e. bytes[off..end) and nothing when end <= off; the object stays `Valid` and the count grows by 8 per byte |
| Challenge.Sha1.UpdateSpan | AYmsg/src/org/openymsg/network/challenge/SHA1.java:74-85 | the intended reading: absorbs the `len` bytes at `off` (calls the as-written loop with end `off + len`) |
| Challenge.Sha1.AbsorbOne | AYmsg/src/org/openymsg/network/challenge/SHA1.java:77-83 | one pass of update's loop on the fields is `AbsorbByte` on the state value: push into W(lenW/4), hashBlock and lenW := 0 on the 64th byte, count 8 bits |
| Challenge.Sha1.SetBitCount | AYmsg/src/org/openymsg/network/challenge/SHA1.java:125-127 | the bit count becomes the 64-bit pattern of the long; H, W, lenW and the absorbed bytes do not change |
| Challenge.Sha1.Digest | AYmsg/src/org/openymsg/network/challenge/SHA1.java:90-120 | the result is `HashWithLength(absorbed, bitCount)`, which is `Sha1(absorbed)` when the count is the message's bit length; afterwards the object is in the initial state |
| Challenge.Sha1.LengthPad | AYmsg/src/org/openymsg/network/challenge/SHA1.java:93-102 | padlen is the bit count as eight bytes, most significant first (`LengthBytes`) |
| Challenge.Sha1.PadZeros | AYmsg/src/org/openymsg/network/challenge/SHA1.java:106-107 | the loop stops after exactly `ZeroCount(|msg|)` zero bytes, the number FIPS 180-1 section 4 prescribes |
| Challenge.Sha1.ReadOut | AYmsg/src/org/openymsg/network/challenge/SHA1.java:112-116 | the 20 output bytes are H0..H4 written out big-endian (`DigestBytes`) |
| Challenge.Sha1.HashBlock | AYmsg/src/org/openymsg/network/challenge/SHA1.java:152-211 | W becomes `Schedule` of the block (W(0..15) unchanged) and H becomes `Compress(H, block)` |
| Challenge.Sha1.ExpandSchedule | AYmsg/src/org/openymsg/network/challenge/SHA1.java:154-156 | W(16..79) follow the recurrence of FIPS 180-1 section 7 step b, so W is `Schedule(W(0..15))` |
| Challenge.Sha1.RoundsOne | AYmsg/src/org/openymsg/network/challenge/SHA1.java:165-173 | the working variables after the loop are those after FIPS rounds 0..19 |
| Challenge.Sha1.RoundsTwo | AYmsg/src/org/openymsg/network/challenge/SHA1.java:176-183 | the working variables after the loop are those after FIPS rounds 0..39 |
| Challenge.Sha1.RoundsThree | AYmsg/src/org/openymsg/network/challenge/SHA1.java:186-194 | the working variables after the loop are those after FIPS rounds 0..59 |
| Challenge.Sha1.RoundsFour | AYmsg/src/org/openymsg/network/challenge/SHA1.java:197-204 | the working variables after the loop are those after all 80 FIPS rounds |
| Challenge.Sha1.AddWorking | AYmsg/src/org/openymsg/network/challenge/SHA1.java:206-210 | each H(i) has the working variable of its place added modulo 2^32 |
| Sha1Steps.ShaRotl | AYmsg/src/org/openymsg/network/challenge/SHA1.java:148-150 | for the amounts hashBlock uses (1, 5, 30) shaRotl is the 32-bit rotation to the left |
| Sha1Steps.ShaRotlIsRotate | AYmsg/src/org/openymsg/network/challenge/SHA1.java:148-150 | for every amount 1..31 shaRotl is the 32-bit rotation to the left, `x.RotateLeft(n)` |
| Sha1Steps.Round1F | AYmsg/src/org/openymsg/network/challenge/SHA1.java:166 | round 1's `((C^D)&B)^D` is the selection function `(B&C)\|(~B&D)` of FIPS 180-1 |
| Sha1Steps.Round3F | AYmsg/src/org/openymsg/network/challenge/SHA1.java:187 | round 3's `(B&C)\|(D&(B\|C))` is the majority function `(B&C)\|(B&D)\|(C&D)` |
| Sha1Steps.Parity | AYmsg/src/org/openymsg/network/challenge/SHA1.java:177 | rounds 2 and 4's `B^C^D` is f(t) of FIPS 180-1 for t in 20..39 and 60..79 |
| Sha1Steps.Round1FIsF | AYmsg/src/org/openymsg/network/challenge/SHA1.java:165-166 | in every round t < 20 the written function is f(t; B, C, D) |
| Sha1Steps.Round3FIsF | AYmsg/src/org/openymsg/network/challenge/SHA1.java:186-187 | in every round 40 <= t < 60 the written function is f(t; B, C, D) |
| Sha1Steps.ParityIsF | AYmsg/src/org/openymsg/network/challenge/SHA1.java:176-177 | in rounds 20..39 and 60..79 the written function is f(t; B, C, D) |
| Sha1Steps.RoundStep | AYmsg/src/org/openymsg/network/challenge/SHA1.java:166-172 | TEMP, then E := D, D := C, C := S^30(B), B := A, A := TEMP is one FIPS round |
| Sha1Steps.RoundOneStep | AYmsg/src/org/openymsg/network/challenge/SHA1.java:165-173 | one pass of the round 1 loop, with K = 5A827999, is FIPS round t |
| Sha1Steps.RoundTwoStep | AYmsg/src/org/openymsg/network/challenge/SHA1.java:176-183 | one pass of the round 2 loop, with K = 6ED9EBA1, is FIPS round t |
| Sha1Steps.RoundThreeStep | AYmsg/src/org/openymsg/network/challenge/SHA1.java:186-194 | one pass of the round 3 loop, with K = 8F1BBCDC, is FIPS round t |
| Sha1Steps.RoundFourStep | AYmsg/src/org/openymsg/network/challenge/SHA1.java:197-204 | one pass of the round 4 loop, with K = CA62C1D6, is FIPS round t |
| Sha1Steps.ScheduleStep | AYmsg/src/org/openymsg/network/challenge/SHA1.java:155-156 | `shaRotl(W(t-3)^W(t-8)^W(t-14)^W(t-16), 1)` is the FIPS schedule word |
| Sha1Steps.CompressStep | AYmsg/src/org/openymsg/network/challenge/SHA1.java:158-210 | adding the working variables after 80 rounds into H is `Compress` |
| Sha1Steps.PushFour | AYmsg/src/org/openymsg/network/challenge/SHA1.java:77-78 | four `<<= 8; \|= b` steps push out whatever the word held: the word is the big-endian packing of the four bytes, so W need not be cleared between blocks |
| Sha1Steps.FilledPush | AYmsg/src/org/openymsg/network/challenge/SHA1.java:77-79 | pushing the next byte into W(lenW/4) keeps the pending bytes packed in W |
| Sha1Steps.FilledBlock | AYmsg/src/org/openymsg/network/challenge/SHA1.java:79-80 | when the 64th byte is in, W(0..15) are the sixteen words of the block |
| Sha1Steps.PushBytes | AYmsg/src/org/openymsg/network/challenge/SHA1.java:77-78 | one `<<= 8; \|= b` step (`Push`): the word's first big-endian byte drops out, the other three move up one place and the byte becomes the last |
| Sha1Steps.PushAll | AYmsg/src/org/openymsg/network/challenge/SHA1.java:77-78 | after pushing the bytes of s one by one, the low byte of the word is the last byte of s |
| Sha1Steps.Initial | AYmsg/src/org/openymsg/network/challenge/SHA1.java:50-65 | the state after construction or reset: H is the initial hash of FIPS 180-1 section 7, all 80 words of W are zero, lenW and the bit count are 0 |
| Sha1Steps.AbsorbByte | AYmsg/src/org/openymsg/network/challenge/SHA1.java:77-83 | one pass of update's loop keeps the state well formed, adds 8 to the bit count modulo 2^64 and makes lenW (lenW + 1) mod 64 |
| Sha1Steps.Feed | AYmsg/src/org/openymsg/network/challenge/SHA1.java:76-84 | the loop over any bytes leaves a well-formed state (its count and `Tracks` are stated by FeedBitCount and FeedTracks) |
| Sha1Steps.Slice | AYmsg/src/org/openymsg/network/challenge/SHA1.java:76 | the loop's index range: end - off bytes when off < end, none otherwise |
| Sha1Steps.InitialTracks | AYmsg/src/org/openymsg/network/challenge/SHA1.java:60-65 | the reset state tracks the empty message |
| Sha1Steps.AbsorbByteInBlock | AYmsg/src/org/openymsg/network/challenge/SHA1.java:77-83 | a byte that is not the 64th only lands in W(lenW/4), and lenW and the count go up |
| Sha1Steps.AbsorbByteAtEnd | AYmsg/src/org/openymsg/network/challenge/SHA1.java:79-82 | the 64th byte lands in W(15), hashBlock runs on W(0..15), and lenW becomes 0 |
| Sha1Steps.AbsorbByteWithinBlock | AYmsg/src/org/openymsg/network/challenge/SHA1.java:77-79 | a byte that does not end the block, pushed into W(lenW/4) with lenW one higher and H unchanged, gives a state that `Tracks` the longer message |
| Sha1Steps.EndsBlockWords | AYmsg/src/org/openymsg/network/challenge/SHA1.java:77-80 | after the 64th byte, W(0..15) are the words of the block just completed |
| Sha1Steps.EndsBlockHash | AYmsg/src/org/openymsg/network/challenge/SHA1.java:79-81 | compressing that block into H gives the hash of every block absorbed so far |
| Sha1Steps.AbsorbByteEndsBlock | AYmsg/src/org/openymsg/network/challenge/SHA1.java:79-82 | the 64th byte keeps `Tracks` with nothing pending |
| Sha1Steps.AbsorbByteTracks | AYmsg/src/org/openymsg/network/challenge/SHA1.java:76-84 | every pass of update's loop keeps `Tracks` for the message with the byte appended |
| Sha1Steps.FeedLast | AYmsg/src/org/openymsg/network/challenge/SHA1.java:76-84 | absorbing one more byte is one more pass of the loop |
| Sha1Steps.FeedAppend | AYmsg/src/org/openymsg/network/challenge/SHA1.java:70-85 | absorbing a + b is absorbing a and then b, so how the input is split into calls does not matter |
| Sha1Steps.FeedTracks | AYmsg/src/org/openymsg/network/challenge/SHA1.java:76-84 | any sequence of absorbed bytes keeps `Tracks` |
| Sha1Steps.FeedBitCount | AYmsg/src/org/openymsg/network/challenge/SHA1.java:83 | every absorbed byte adds 8 to the count modulo 2^64, whether or not it completes a block |
| Sha1Steps.FeedCountsBits | AYmsg/src/org/openymsg/network/challenge/SHA1.java:83 | if the count is the bit length of m, after more bytes it is the bit length of all of them |
| Sha1Steps.CountAdd | AYmsg/src/org/openymsg/network/challenge/SHA1.java:83 | adding 8 to the wrapped count of n bytes gives the wrapped count of n + 1 bytes |
| Sha1Steps.FeedFrom | AYmsg/src/org/openymsg/network/challenge/SHA1.java:74-85 | the state after the loop tracks the longer message and has counted its bytes |
| Sha1Steps.TracksBlocks | AYmsg/src/org/openymsg/network/challenge/SHA1.java:109 | after whole blocks lenW is 0 and H is the hash of all of them, which is what digest reads out |
| Sha1Steps.SliceIsRange | AYmsg/src/org/openymsg/network/challenge/SHA1.java:76 | when off <= end the loop reads exactly bytes[off..end) |
| Challenge.SliceSpan | AYmsg/src/org/openymsg/network/challenge/SHA1.java:74-76 | passing off + len as the end reads the len bytes at off |
| Challenge.SliceFromZero | AYmsg/src/org/openymsg/network/challenge/SHA1.java:71 | from offset 0 the as-written and the intended readings agree, so update(bytes) and digest read what they mean to |
| Challenge.UpdateOffsetReadsTooLittle | AYmsg/src/org/openymsg/network/challenge/SHA1.java:74-76 | with bytes [1, 2, 3], off = 1, len = 2 the loop reads [2], not [2, 3] |
| Challenge.EmptyRangeKeepsState | AYmsg/src/org/openymsg/network/challenge/SHA1.java:76 | update with end <= off leaves the state unchanged |
| Challenge.SplitUpdate | AYmsg/src/org/openymsg/network/challenge/SHA1.java:74-85 | update(b, 0, k) then update(b, k, \|b\|) leaves the same state as update(b, 0, \|b\|), for every k |
| Challenge.PadPrefixStart | AYmsg/src/org/openymsg/network/challenge/SHA1.java:104 | after the 0x80 byte the absorbed bytes are the message followed by 0x80 |
| Challenge.PadPrefixZero | AYmsg/src/org/openymsg/network/challenge/SHA1.java:106-107 | each zero byte extends the padding by one zero |
| Challenge.ZeroCountMore | AYmsg/src/org/openymsg/network/challenge/SHA1.java:106 | while lenW != 56 fewer than `ZeroCount` zeros are in, so the loop terminates |
| Challenge.ZeroCountLeast | AYmsg/src/org/openymsg/network/challenge/SHA1.java:106 | when lenW reaches 56 exactly `ZeroCount` zeros are in |
| Challenge.PadPrefixLength | AYmsg/src/org/openymsg/network/challenge/SHA1.java:109 | after the eight length bytes the absorbed bytes are `Pad(message, count)` of FIPS 180-1 section 4 |
| Challenge.TopByte | AYmsg/src/org/openymsg/network/challenge/SHA1.java:114 | `(byte) (x >> 24)` is the first of the word's big-endian bytes |
| Challenge.ShiftByte | AYmsg/src/org/openymsg/network/challenge/SHA1.java:115 | `x <<= 8`: the word's first big-endian byte drops out, the other three move up one place and the last becomes zero |
| Challenge.Drain | AYmsg/src/org/openymsg/network/challenge/SHA1.java:113-116 | H after i steps of the output loop: the words already read out are zero, the words not yet reached are unchanged |
| Challenge.DrainByte | AYmsg/src/org/openymsg/network/challenge/SHA1.java:114-115 | the top byte of a word after r shifts by 8 is its byte r, most significant first |
| Challenge.DrainStep | AYmsg/src/org/openymsg/network/challenge/SHA1.java:113-116 | step i of the output loop reads byte i of the digest and leaves H as after i + 1 steps |
| Challenge.DrainLast | AYmsg/src/org/openymsg/network/challenge/SHA1.java:115 | four shifts by 8 clear a word |
| Challenge.CountedChain | AYmsg/src/org/openymsg/network/challenge/SHA1.java:83 | counting a from zero and then b gives the bit length of a + b |
| Challenge.UpdateTwice | AYmsg/src/org/openymsg/network/challenge/SHA1.java:70-72 | a new object after update(a) and update(b) is valid, has absorbed a + b and holds its bit length |
| Challenge.DigestOfTwoUpdates | AYmsg/src/org/openymsg/network/challenge/SHA1.java:50-120 | new SHA1, update(a), update(b), digest() returns the SHA-1 of a + b |
| Challenge.DigestFromInitial | AYmsg/src/org/openymsg/network/challenge/SHA1.java:70-120 | from the initial state, update(bytes) then digest() returns the SHA-1 of bytes and leaves the initial state again |
| Challenge.DigestTwice | AYmsg/src/org/openymsg/network/challenge/SHA1.java:50-120 | digest resets the object: update(a), digest(), update(b), digest() return the SHA-1 of a and then of b |
| Fips180.Pad | AYmsg/src/org/openymsg/network/challenge/SHA1.java:104-109 | the padded message: a multiple of 64 bytes, the message, 0x80, zeros, and the 8-byte length last |

## Left out

- Challenge.Sha1.UpdateRange, Challenge.Sha1.UpdateSpan and Challenge.Sha1.Update state the new state through `Valid()`, that is `Tracks`, together with the absorbed bytes and the bit count. `Tracks` fixes H, lenW and the pending bytes in W, but not the words of W that are stale from the last block or the last schedule. The exact new state, `Feed(old state, bytes)`, is proved per byte (`AbsorbOne`) and inside the loop.
- Java exceptions: an index outside the array in `update` raises ArrayIndexOutOfBoundsException. The model makes the bounds a precondition of `UpdateRange` instead.
- Java `long` overflow of the bit count is modelled as arithmetic modulo 2^64 on the unsigned pattern. `setBitCount` of a negative long stores its two's-complement pattern, and digest's `>>` and `& 0xFF` read the same bytes from that pattern (`ByteAt`).
- The pad arrays `s_pad0x80` and `s_pad0x00` are constant sequences (`Pad0x80`, `Pad0x00`). Nothing ever writes them.
- The arrays passed to `update` are sequences. The method only reads them, so aliasing with them is not modelled.
- The loops of `hashBlock` and the two loops of `digest` are methods of their own. They run the same statements in the same order on the same fields: `ExpandSchedule`, `RoundsOne`..`RoundsFour`, `AddWorking`, `LengthPad`, `PadZeros` and `ReadOut`. The sums in hashBlock are written through the functions `Temp` and `Add`, which are the same 32-bit wrapping additions.
- The protocol code that calls this class, and cryptographic claims such as collision resistance, are not part of this model. No concrete test vector is evaluated.

## Findings

| source | as written | input that shows it | evidently intended | confidence | as-written member | corrected member |
|---|---|---|---|---|---|---|
| AYmsg/src/org/openymsg/network/challenge/SHA1.java:74-76 | `update(bytes, iOffset, iLen)` loops `i` from `iOffset` while `i < iLen`, so `iLen` is an end index, and the call reads `bytes[iOffset..iLen)` | bytes = [1, 2, 3], iOffset = 1, iLen = 2 reads [2] instead of [2, 3] | read the `iLen` bytes starting at `iOffset` (the loop bound `iOffset + iLen`); every call inside the class passes offset 0, where both readings agree (`SliceFromZero`) | not executed; high that the code reads an end index, medium that a length was meant | Challenge.UpdateOffsetReadsTooLittle | Challenge.Sha1.UpdateSpan |
