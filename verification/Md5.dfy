/** MD5 as the library streams it (sections 3.1 to 3.5 of RFC 1321), around the compression function. */
module Md5 {
  import opened Bytes
  import opened Digest

  type Words = s: seq<word> | |s| == 4 witness [0, 0, 0, 0]

  const INITIAL: Words := [0x67452301, 0xefcdab89, 0x98badcfe, 0x10325476]

  // The words of the state, lowest byte first.
  function Output(state: seq<word>): (r: seq<byte>)
    ensures |r| == 4 * |state|
  {
    if state == [] then [] else LittleBytes(state[0], 4) + Output(state[1..])
  }

  // The initial value lists the hexadecimal digits upwards and downwards again (section 3.3 of RFC 1321).
  lemma InitialBytes()
    ensures Output(INITIAL) == [0x01, 0x23, 0x45, 0x67] + [0x89, 0xab, 0xcd, 0xef] + [0xfe, 0xdc, 0xba, 0x98]
                               + [0x76, 0x54, 0x32, 0x10]
  {
  }

  class Md5Context {
    const f: Compress<Words>
    var buf: Words
    var bits0: int
    var bits1: int
    const buffer: array<byte> // `in`
    ghost var seen: seq<byte> // the message so far

    ghost predicate Valid()
      reads this, buffer
    {
      && buffer.Length == 64 && Counts(bits0, bits1, |seen|)
      && Absorbed(f, INITIAL, seen, buf, buffer[..])
    }

    constructor (f: Compress<Words>)
      ensures Valid() && seen == [] && this.f == f && fresh(buffer)
    {
      this.f := f;
      buf := INITIAL;
      bits0, bits1 := 0, 0;
      buffer := new byte[64];
      seen := [];
    }

    method Update(data: seq<byte>)
      requires Valid() && |data| < WORD32
      modifies this`buf, this`bits0, this`bits1, this`seen, buffer
      ensures Valid() && seen == old(seen) + data
    {
      var t := bits0 / 8 % 64;
      CountPosition(bits0, bits1, |seen|);
      CountBits(|data|, |seen|);
      Absorb(t, data);
    }

    method CountBits(len: nat, ghost n: nat)
      requires Counts(bits0, bits1, n) && len < WORD32
      modifies this`bits0, this`bits1
      ensures Counts(bits0, bits1, n + len)
    {
      CountMore32(bits0, bits1, n, len);
      var t := bits0;
      bits0 := (t + len * 8 % WORD32) % WORD32;
      if bits0 < t {
        bits1 := (bits1 + 1) % WORD32;
      }
      bits1 := (bits1 + len / 0x2000_0000) % WORD32;
    }

    // The part of the update after the counting.
    method Absorb(t: nat, data: seq<byte>)
      requires buffer.Length == 64 && t == |seen| % 64 && Absorbed(f, INITIAL, seen, buf, buffer[..])
      modifies this`buf, this`seen, buffer
      ensures seen == old(seen) + data && Absorbed(f, INITIAL, seen, buf, buffer[..])
    {
      var rest := data;
      if t != 0 {
        var free := 64 - t;
        if |data| < free {
          Keep(t, data);
          return;
        }
        Fill(t, data[..free]);
        rest := data[free..];
        assert data == data[..free] + rest;
      }
      AbsorbAligned(rest);
    }

    // The rest of an update once the buffer is empty.
    method AbsorbAligned(data: seq<byte>)
      requires buffer.Length == 64 && |seen| % 64 == 0 && Absorbed(f, INITIAL, seen, buf, buffer[..])
      modifies this`buf, this`seen, buffer
      ensures seen == old(seen) + data && Absorbed(f, INITIAL, seen, buf, buffer[..])
    {
      var i := WholeBlocks(data);
      Keep(0, data[i..]);
      assert data == data[..i] + data[i..];
    }

    // Keeps less than a block for later.
    method Keep(at: nat, piece: seq<byte>)
      requires buffer.Length == 64 && at == |seen| % 64 && Absorbed(f, INITIAL, seen, buf, buffer[..])
               && at + |piece| < 64
      modifies this`seen, buffer
      ensures seen == old(seen) + piece && Absorbed(f, INITIAL, seen, buf, buffer[..])
    {
      ghost var before := buffer[..];
      CopyInto(buffer, at, piece);
      AbsorbPiece(f, INITIAL, seen, buf, before, piece, buffer[..]);
      seen := seen + piece;
    }

    // Fills up the buffer and compresses it.
    method Fill(t: nat, piece: seq<byte>)
      requires buffer.Length == 64 && t == |seen| % 64 && Absorbed(f, INITIAL, seen, buf, buffer[..])
               && t + |piece| == 64
      modifies this`buf, this`seen, buffer
      ensures seen == old(seen) + piece && |seen| % 64 == 0 && Absorbed(f, INITIAL, seen, buf, buffer[..])
    {
      AbsorbFill(f, INITIAL, seen, buf, buffer[..], piece);
      ghost var before := buffer[..];
      CopyInto(buffer, t, piece);
      assert buffer[..] == before[..t] + piece;
      buf := f(buf, buffer[..]);
      seen := seen + piece;
      AbsorbedWhole(f, INITIAL, seen, buf, buffer[..]);
    }

    // Copies each whole block into the buffer and compresses it there.
    method WholeBlocks(data: seq<byte>) returns (i: nat)
      requires buffer.Length == 64 && |seen| % 64 == 0 && Absorbed(f, INITIAL, seen, buf, buffer[..])
      modifies this`buf, this`seen, buffer
      ensures i <= |data| < i + 64
      ensures seen == old(seen) + data[..i] && |seen| % 64 == 0 && Absorbed(f, INITIAL, seen, buf, buffer[..])
    {
      i := 0;
      while |data| - i >= 64
        invariant i <= |data| && seen == old(seen) + data[..i] && |seen| % 64 == 0
        invariant Absorbed(f, INITIAL, seen, buf, buffer[..])
        decreases |data| - i
      {
        var block := data[i..i + 64];
        assert data[..i + 64] == data[..i] + block;
        Fill(0, block);
        i := i + 64;
      }
    }

    method Final() returns (digest: seq<byte>)
      requires Valid()
      modifies this`buf, this`seen, buffer
      ensures digest == Output(Fold(f, INITIAL, PaddedLittle(old(seen))))
    {
      ghost var m := seen;
      CountPosition(bits0, bits1, |m|);
      PadMark(bits0 / 8 % 64);
      // a[14] and a[15] as bytes
      var length := LittleBytes(bits0, 4) + LittleBytes(bits1, 4);
      LittleCount(bits0, bits1, |m|);
      GapFits(|m|);
      Fill(56, length);
      PaddedWhole(m);
      assert seen == PaddedLittle(m) && Blocks(seen) == seen;
      digest := Output(buf);
    }

    // The end mark and zero bytes up to 56 bytes past a whole block.
    method PadMark(count: nat)
      requires buffer.Length == 64 && count == |seen| % 64 && Absorbed(f, INITIAL, seen, buf, buffer[..])
      modifies this`buf, this`seen, buffer
      ensures seen == old(seen) + [0x80] + Zeros(Gap(|old(seen)|)) && |seen| % 64 == 56
      ensures Absorbed(f, INITIAL, seen, buf, buffer[..])
    {
      ghost var m, gap := seen, Gap(|seen|);
      var left := 64 - 1 - count;
      GapSmall(|m|, left);
      if left < 8 {
        Fill(count, [0x80] + Zeros(left));
        Keep(0, Zeros(56));
        assert Zeros(left) + Zeros(56) == Zeros(gap);
      } else {
        Keep(count, [0x80] + Zeros(left - 8));
      }
      assert seen == m + [0x80] + Zeros(gap);
      GapExactly(|m|, gap);
    }
  }

  // The two words of the count are the length, lowest byte first.
  lemma {:induction false} LittleCount(lo: int, hi: int, n: nat)
    requires Counts(lo, hi, n)
    ensures LittleBytes(lo, 4) + LittleBytes(hi, 4) == LittleBytes(8 * n, 8)
  {
    CountWords(lo, hi, n);
    var v: nat :| 8 * n == lo + (hi + v * WORD32) * WORD32;
    assert Range(4) == WORD32;
    LittleConcat(lo, hi + v * WORD32, 4, 4);
    LittleLow(hi, v, 4);
  }

  lemma {:induction false} LittleConcat(lo: nat, up: nat, j: nat, k: nat)
    requires lo < Range(j)
    ensures LittleBytes(lo + up * Range(j), j + k) == LittleBytes(lo, j) + LittleBytes(up, k)
    decreases j
  {
    if j > 0 {
      Scale(up, Range(j - 1));
      var x := up * Range(j - 1);
      assert (lo + 256 * x) / 256 == lo / 256 + x && (lo + 256 * x) % 256 == lo % 256;
      LittleConcat(lo / 256, up, j - 1, k);
    }
  }

  lemma {:induction false} LittleLow(n: nat, q: nat, k: nat)
    ensures LittleBytes(n + q * Range(k), k) == LittleBytes(n, k)
    decreases k
  {
    if k > 0 {
      Scale(q, Range(k - 1));
      var x := q * Range(k - 1);
      assert (n + 256 * x) / 256 == n / 256 + x && (n + 256 * x) % 256 == n % 256;
      LittleLow(n / 256, q, k - 1);
    }
  }

  // Two digits for each byte, and the terminator.
  method Bin2Str(to: array<byte>, p: seq<byte>)
    requires 2 * |p| < to.Length
    modifies to
    ensures to[..2 * |p|] == Hex(p) && to[2 * |p|] == 0
  {
    var i := 0;
    while i < |p|
      invariant 0 <= i <= |p| && to[..2 * i] == Hex(p[..i])
    {
      to[2 * i] := HexDigit(p[i] / 16);
      to[2 * i + 1] := HexDigit(p[i] % 16);
      assert p[..i + 1][..i] == p[..i];
      assert to[..2 * (i + 1)] == to[..2 * i] + [to[2 * i], to[2 * i + 1]];
      i := i + 1;
    }
    assert p[..i] == p;
    ghost var text := to[..2 * i];
    to[2 * i] := 0;
    assert to[..2 * i] == text;
  }

  // The digest of a list of strings in hexadecimal.
  method MgMd5(f: Compress<Words>, buf: array<byte>, pieces: seq<seq<byte>>)
    requires forall i :: 0 <= i < |pieces| ==> |pieces[i]| < WORD32
    requires buf.Length == 33
    modifies buf
    ensures buf[..32] == Hex(Output(Fold(f, INITIAL, PaddedLittle(Concat(pieces))))) && buf[32] == 0
  {
    var ctx := new Md5Context(f);
    var i := 0;
    assert pieces[0..] == pieces && [] + Concat(pieces) == Concat(pieces);
    while i < |pieces|
      invariant 0 <= i <= |pieces| && ctx.Valid() && fresh(ctx) && fresh(ctx.buffer) && ctx.f == f
      invariant ctx.seen + Concat(pieces[i..]) == Concat(pieces)
    {
      ConcatStep(ctx.seen, pieces, i);
      ctx.Update(pieces[i]);
      i := i + 1;
    }
    ConcatEnd(ctx.seen, pieces);
    var hash := ctx.Final();
    Bin2Str(buf, hash);
  }

  lemma ConcatStep(seen: seq<byte>, pieces: seq<seq<byte>>, i: nat)
    requires i < |pieces|
    ensures seen + Concat(pieces[i..]) == seen + pieces[i] + Concat(pieces[i + 1..])
  {
    assert pieces[i..][0] == pieces[i] && pieces[i..][1..] == pieces[i + 1..];
  }

  lemma ConcatEnd(seen: seq<byte>, pieces: seq<seq<byte>>)
    ensures seen + Concat(pieces[|pieces|..]) == seen
  {
    assert pieces[|pieces|..] == [];
  }
}
