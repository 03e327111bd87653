/** SHA-1 as the library streams it (section 4 of RFC 3174), around the compression function. */
module Sha1 {
  import opened Basics
  import opened Bytes
  import opened Digest

  type Words = s: seq<word> | |s| == 5 witness [0, 0, 0, 0, 0]

  const INITIAL: Words := [0x67452301, 0xEFCDAB89, 0x98BADCFE, 0x10325476, 0xC3D2E1F0]

  // The words of the state, highest byte first.
  function Output(state: seq<word>): seq<byte> {
    if state == [] then [] else BigBytes(state[0], 4) + Output(state[1..])
  }

  // The initial value of section 6.1 of RFC 3174, as bytes.
  lemma InitialBytes(state: seq<word>)
    requires state == INITIAL
    ensures Output(state) == [0x67, 0x45, 0x23, 0x01] + [0xEF, 0xCD, 0xAB, 0x89] + [0x98, 0xBA, 0xDC, 0xFE]
                             + [0x10, 0x32, 0x54, 0x76] + [0xC3, 0xD2, 0xE1, 0xF0]
  {
    OutputFive(state);
    FourOf(state[0], 0x67, 0x45, 0x23, 0x01);
    FourOf(state[1], 0xEF, 0xCD, 0xAB, 0x89);
    FourOf(state[2], 0x98, 0xBA, 0xDC, 0xFE);
    FourOf(state[3], 0x10, 0x32, 0x54, 0x76);
    FourOf(state[4], 0xC3, 0xD2, 0xE1, 0xF0);
  }

  lemma FourOf(w: word, a: byte, b: byte, c: byte, d: byte)
    requires w == ((a as int * 256 + b) * 256 + c) * 256 + d
    ensures BigBytes(w, 4) == [a, b, c, d]
  {
    BigBytesSnoc(0, a, 0);
    BigBytesSnoc(a, b, 1);
    BigBytesSnoc(a as int * 256 + b, c, 2);
    BigBytesSnoc((a as int * 256 + b) * 256 + c, d, 3);
  }

  lemma BigBytesSnoc(n: nat, d: byte, k: nat)
    ensures BigBytes(n * 256 + d, k + 1) == BigBytes(n, k) + [d]
  {
  }

  lemma OutputFive(state: seq<word>)
    requires |state| == 5
    ensures Output(state) == BigBytes(state[0], 4) + BigBytes(state[1], 4) + BigBytes(state[2], 4)
                             + BigBytes(state[3], 4) + BigBytes(state[4], 4)
  {
    OutputCons(state);
    OutputCons(state[1..]);
    OutputCons(state[2..]);
    OutputCons(state[3..]);
    OutputCons(state[4..]);
    assert state[1..][1..] == state[2..] && state[2..][1..] == state[3..] && state[3..][1..] == state[4..];
  }

  lemma OutputCons(state: seq<word>)
    requires state != []
    ensures Output(state) == BigBytes(state[0], 4) + Output(state[1..])
  {
  }

  lemma OutputAt(state: seq<word>, i: nat)
    requires i < 4 * |state|
    ensures |Output(state)| == 4 * |state|
    ensures Output(state)[i] == ByteOf(state[i / 4], i % 4)
  {
    if i < 4 {
      OutputLength(state);
      FourBytes(state[0]);
    } else {
      OutputAt(state[1..], i - 4);
      assert (i - 4) / 4 == i / 4 - 1 && (i - 4) % 4 == i % 4;
      assert state[1..][i / 4 - 1] == state[i / 4];
    }
  }

  lemma OutputLength(state: seq<word>)
    ensures |Output(state)| == 4 * |state|
  {
  }

  // Byte k of a word, the highest first.
  function ByteOf(n: nat, k: nat): byte
    requires k < 4
  {
    n / (if k == 0 then 0x100_0000 else if k == 1 then 0x1_0000 else if k == 2 then 256 else 1) % 256
  }

  class Sha1Context {
    const f: Compress<Words>
    var state: Words
    var count0: int
    var count1: int
    const buffer: array<byte>
    ghost var seen: seq<byte> // the message so far

    ghost predicate Valid()
      reads this, buffer
    {
      && buffer.Length == 64 && Counts(count0, count1, |seen|)
      && Absorbed(f, INITIAL, seen, state, buffer[..])
    }

    constructor (f: Compress<Words>)
      ensures Valid() && seen == [] && this.f == f && fresh(buffer)
    {
      this.f := f;
      state := INITIAL;
      count0, count1 := 0, 0;
      buffer := new byte[64];
      seen := [];
    }

    method Update(data: seq<byte>)
      requires Valid() && |data| < WORD
      modifies this`state, this`count0, this`count1, this`seen, buffer
      ensures Valid() && seen == old(seen) + data
    {
      var j := count0 / 8 % 64;
      CountPosition(count0, count1, |seen|);
      CountBits(|data|, |seen|);
      Absorb(j, data);
    }

    method CountBits(len: nat, ghost n: nat)
      requires Counts(count0, count1, n) && len < WORD
      modifies this`count0, this`count1
      ensures Counts(count0, count1, n + len)
    {
      CountMore(count0, count1, n, len);
      var j := count0;
      count0 := (count0 + len * 8 % WORD) % WORD32;
      if count0 < j {
        count1 := (count1 + 1) % WORD32;
      }
      count1 := (count1 + len / 0x2000_0000) % WORD32;
    }

    // The part of the update after the counting.
    method Absorb(j: nat, data: seq<byte>)
      requires buffer.Length == 64 && j == |seen| % 64 && Absorbed(f, INITIAL, seen, state, buffer[..])
      modifies this`state, this`seen, buffer
      ensures seen == old(seen) + data && Absorbed(f, INITIAL, seen, state, buffer[..])
    {
      if j + |data| > 63 {
        var i := 64 - j;
        Fill(j, data[..i]);
        AbsorbFrom(data, i);
        assert data == data[..i] + data[i..];
      } else {
        Keep(j, data);
      }
    }

    // The rest of an update once the buffer is empty.
    method AbsorbFrom(data: seq<byte>, start: nat)
      requires start <= |data|
      requires buffer.Length == 64 && |seen| % 64 == 0 && Absorbed(f, INITIAL, seen, state, buffer[..])
      modifies this`state, this`seen, buffer
      ensures seen == old(seen) + data[start..] && Absorbed(f, INITIAL, seen, state, buffer[..])
    {
      var i := WholeBlocks(data, start);
      Keep(0, data[i..]);
      assert data[start..] == data[start..i] + data[i..];
    }

    // Keeps less than a block for later.
    method Keep(at: nat, piece: seq<byte>)
      requires buffer.Length == 64 && at == |seen| % 64 && Absorbed(f, INITIAL, seen, state, buffer[..])
               && at + |piece| < 64
      modifies this`seen, buffer
      ensures seen == old(seen) + piece && Absorbed(f, INITIAL, seen, state, buffer[..])
    {
      ghost var before := buffer[..];
      CopyInto(buffer, at, piece);
      AbsorbPiece(f, INITIAL, seen, state, before, piece, buffer[..]);
      seen := seen + piece;
    }

    // Fills up the buffer and compresses it.
    method Fill(j: nat, piece: seq<byte>)
      requires buffer.Length == 64 && j == |seen| % 64 && Absorbed(f, INITIAL, seen, state, buffer[..])
               && j + |piece| == 64
      modifies this`state, this`seen, buffer
      ensures seen == old(seen) + piece && |seen| % 64 == 0 && Absorbed(f, INITIAL, seen, state, buffer[..])
    {
      AbsorbFill(f, INITIAL, seen, state, buffer[..], piece);
      ghost var before := buffer[..];
      CopyInto(buffer, j, piece);
      assert buffer[..] == before[..j] + piece;
      state := f(state, buffer[..]);
      seen := seen + piece;
      AbsorbedWhole(f, INITIAL, seen, state, buffer[..]);
    }

    // Compresses whole blocks of data from index start on.
    method WholeBlocks(data: seq<byte>, start: nat) returns (i: nat)
      requires start <= |data| && buffer.Length == 64 && |seen| % 64 == 0
               && Absorbed(f, INITIAL, seen, state, buffer[..])
      modifies this`state, this`seen
      ensures start <= i <= |data| < i + 64
      ensures seen == old(seen) + data[start..i] && |seen| % 64 == 0 && Absorbed(f, INITIAL, seen, state, buffer[..])
    {
      i := start;
      while i + 63 < |data|
        invariant start <= i <= |data| && seen == old(seen) + data[start..i] && |seen| % 64 == 0
        invariant Absorbed(f, INITIAL, seen, state, buffer[..])
        decreases |data| - i
      {
        var block := data[i..i + 64];
        AbsorbBlock(f, INITIAL, seen, state, buffer[..], block);
        assert data[start..i + 64] == data[start..i] + block;
        state := f(state, block);
        seen := seen + block;
        i := i + 64;
      }
    }

    method Final() returns (digest: seq<byte>)
      requires Valid()
      modifies this`state, this`count0, this`count1, this`seen, buffer
      ensures digest == Output(Fold(f, INITIAL, PaddedBig(old(seen))))
    {
      ghost var m := seen;
      var finalcount := FinalCount();
      Update([0x80]);
      Pad(m);
      Update(finalcount);
      PaddedWhole(m);
      assert Blocks(seen) == seen == PaddedBig(m);
      digest := OutputBytes();
    }

    method OutputBytes() returns (digest: seq<byte>)
      ensures digest == Output(state)
    {
      digest := [];
      OutputLength(state);
      var i := 0;
      while i < 20
        invariant 0 <= i <= 20 && digest == Output(state)[..i]
      {
        OutputAt(state, i);
        digest := digest + [ByteOf(state[i / 4], i % 4)];
        i := i + 1;
      }
    }

    method FinalCount() returns (finalcount: seq<byte>)
      requires Valid()
      ensures finalcount == BigBytes(8 * |seen|, 8)
    {
      finalcount := [];
      var i := 0;
      while i < 8
        invariant 0 <= i <= 8 && |finalcount| == i
        invariant forall k :: 0 <= k < i ==> finalcount[k] == ByteOf(if k >= 4 then count0 else count1, k % 4)
      {
        finalcount := finalcount + [ByteOf(if i >= 4 then count0 else count1, i % 4)];
        i := i + 1;
      }
      CountBytes(count0, count1, |seen|, finalcount);
    }

    // Zero bytes up to 56 bytes past a whole block.
    method Pad(ghost m: seq<byte>)
      requires Valid() && seen == m + [0x80]
      modifies this`state, this`count0, this`count1, this`seen, buffer
      ensures Valid() && seen == m + [0x80] + Zeros(Gap(|m|))
    {
      ghost var k := 0;
      GapStep(|m|, k, count0, count1);
      while count0 / 8 % 64 != 56
        invariant Valid() && k <= Gap(|m|) && seen == m + [0x80] + Zeros(k)
        invariant count0 / 8 % 64 == 56 <==> k == Gap(|m|)
        decreases Gap(|m|) - k
      {
        Update([0]);
        assert Zeros(k) + [0] == Zeros(k + 1);
        assert seen == m + [0x80] + Zeros(k + 1);
        k := k + 1;
        GapStep(|m|, k, count0, count1);
      }
    }
  }

  // The bytes that are taken from the count are the length in network byte order.
  lemma CountBytes(lo: int, hi: int, n: nat, bytes: seq<byte>)
    requires Counts(lo, hi, n) && |bytes| == 8
    requires forall k :: 0 <= k < 8 ==> bytes[k] == ByteOf(if k >= 4 then lo else hi, k % 4)
    ensures bytes == BigBytes(8 * n, 8)
  {
    WordBytes(hi, bytes[..4]);
    WordBytes(lo, bytes[4..]);
    assert bytes == bytes[..4] + bytes[4..];
    CountParts(lo, hi, n);
    BigBytesConcat(8 * n, 4, 4);
  }

  lemma WordBytes(w: int, bytes: seq<byte>)
    requires w >= 0 && |bytes| == 4 && forall k :: 0 <= k < 4 ==> bytes[k] == ByteOf(w, k)
    ensures bytes == BigBytes(w, 4)
  {
    FourBytes(w);
  }

  lemma CountParts(lo: int, hi: int, n: nat)
    requires Counts(lo, hi, n)
    ensures BigBytes(8 * n, 4) == BigBytes(lo, 4) && BigBytes(Shift(8 * n, 4), 4) == BigBytes(hi, 4)
  {
    CountWords(lo, hi, n);
    var v: nat :| 8 * n == lo + (hi + v * WORD32) * WORD32;
    PartsOf(8 * n, lo, hi, v);
  }

  lemma Quotient(bits: nat, lo: nat, up: nat)
    requires lo < WORD32 && bits == lo + up * WORD32
    ensures bits / WORD32 == up
  {
  }

  lemma {:induction false} PartsOf(bits: nat, lo: nat, hi: nat, v: nat)
    requires lo < WORD32 && hi < WORD32 && bits == lo + (hi + v * WORD32) * WORD32
    ensures BigBytes(bits, 4) == BigBytes(lo, 4) && BigBytes(Shift(bits, 4), 4) == BigBytes(hi, 4)
  {
    LowWord(lo, hi + v * WORD32);
    LowWord(hi, v);
    ShiftFour(bits);
    Quotient(bits, lo, hi + v * WORD32);
  }

  lemma LowWord(n: nat, q: nat)
    ensures BigBytes(n + q * WORD32, 4) == BigBytes(n, 4)
  {
    assert Range(4) == WORD32;
    BigBytesLow(n, q, 4);
  }
}
