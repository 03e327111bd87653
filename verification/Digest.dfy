/** SHA-1 and MD5 fed piece by piece, over any compression function (RFC 3174 and RFC 1321). */
module Digest {
  import opened Basics
  import opened Bytes

  const WORD32: int := 0x1_0000_0000

  type word = x: int | 0 <= x < 0x1_0000_0000

  // ---------- folding a compression function over blocks ----------

  type Compress<!S> = (S, seq<byte>) -> S

  function Fold<S>(f: Compress<S>, s: S, data: seq<byte>): S
    decreases |data|
  {
    if |data| < 64 then s else Fold(f, f(s, data[..64]), data[64..])
  }

  lemma {:induction false} FoldBlock<S>(f: Compress<S>, s: S, data: seq<byte>, block: seq<byte>)
    requires |data| % 64 == 0 && |block| == 64
    ensures Fold(f, s, data + block) == f(Fold(f, s, data), block)
    decreases |data|
  {
    var all := data + block;
    if data == [] {
      assert all == block && block[..64] == block;
    } else {
      assert all[..64] == data[..64] && all[64..] == data[64..] + block;
      FoldBlock(f, f(s, data[..64]), data[64..], block);
    }
  }

  // The part of a message that fills whole blocks.
  function Blocks(m: seq<byte>): seq<byte> {
    m[..|m| - |m| % 64]
  }

  function Tail(m: seq<byte>): seq<byte> {
    m[|m| - |m| % 64..]
  }

  // After the message m the whole blocks are in the state and the rest is at the front of the buffer.
  ghost predicate Absorbed<S(!new)>(f: Compress<S>, iv: S, m: seq<byte>, state: S, buffer: seq<byte>) {
    |buffer| == 64 && state == Fold(f, iv, Blocks(m)) && buffer[..|m| % 64] == Tail(m)
  }

  lemma AbsorbPiece<S(!new)>(f: Compress<S>, iv: S, m: seq<byte>, state: S, buffer: seq<byte>, data: seq<byte>,
                             buffer': seq<byte>)
    requires Absorbed(f, iv, m, state, buffer) && |m| % 64 + |data| < 64 == |buffer'|
    requires buffer'[..|m| % 64] == buffer[..|m| % 64]
    requires buffer'[|m| % 64..|m| % 64 + |data|] == data
    ensures Absorbed(f, iv, m + data, state, buffer')
  {
    var j := |m| % 64;
    assert |m + data| % 64 == j + |data|;
    assert Blocks(m + data) == Blocks(m);
    assert Tail(m + data) == Tail(m) + data;
    assert buffer'[..j + |data|] == buffer'[..j] + buffer'[j..j + |data|];
  }

  // The buffer is filled up and compressed.
  lemma {:induction false} AbsorbFill<S(!new)>(f: Compress<S>, iv: S, m: seq<byte>, state: S, buffer: seq<byte>,
                                               data: seq<byte>)
    requires Absorbed(f, iv, m, state, buffer) && |m| % 64 + |data| == 64
    ensures |m + data| % 64 == 0
    ensures Fold(f, iv, m + data) == f(state, buffer[..|m| % 64] + data)
  {
    assert m == Blocks(m) + Tail(m);
    assert m + data == Blocks(m) + (Tail(m) + data);
    FoldBlock(f, iv, Blocks(m), Tail(m) + data);
  }

  lemma AbsorbedWhole<S(!new)>(f: Compress<S>, iv: S, m: seq<byte>, state: S, buffer: seq<byte>)
    requires |m| % 64 == 0 && |buffer| == 64 && state == Fold(f, iv, m)
    ensures Absorbed(f, iv, m, state, buffer)
  {
    assert Blocks(m) == m && Tail(m) == [];
    assert buffer[..0] == [];
  }

  lemma AbsorbBlock<S(!new)>(f: Compress<S>, iv: S, m: seq<byte>, state: S, buffer: seq<byte>, block: seq<byte>)
    requires Absorbed(f, iv, m, state, buffer) && |m| % 64 == 0 && |block| == 64
    ensures |m + block| % 64 == 0 && Absorbed(f, iv, m + block, f(state, block), buffer)
  {
    assert Blocks(m) == m;
    FoldBlock(f, iv, m, block);
    AbsorbedWhole(f, iv, m + block, f(state, block), buffer);
  }

  // ---------- padding ----------

  function Zeros(k: nat): (r: seq<byte>)
    ensures |r| == k && forall i :: 0 <= i < k ==> r[i] == 0
  {
    seq(k, i => 0)
  }

  lemma GapSmall(n: nat, left: nat)
    requires left == 63 - n % 64
    ensures Gap(n) == if left < 8 then left + 56 else left - 8
  {
  }

  // How many zero bytes bring a message and its end mark to 56 bytes past a whole block.
  function Gap(n: nat): nat {
    (119 - n % 64) % 64
  }

  // The padding of section 4 of RFC 3174: the length in bits in network byte order, as 64 bits.
  function PaddedBig(m: seq<byte>): seq<byte> {
    m + [0x80] + Zeros(Gap(|m|)) + BigBytes(8 * |m|, 8)
  }

  // The last k bytes of n, the lowest first.
  function LittleBytes(n: nat, k: nat): (r: seq<byte>)
    ensures |r| == k
  {
    if k == 0 then [] else [n % 256] + LittleBytes(n / 256, k - 1)
  }

  // The padding of sections 3.1 and 3.2 of RFC 1321: the same, lowest byte first.
  function PaddedLittle(m: seq<byte>): seq<byte> {
    m + [0x80] + Zeros(Gap(|m|)) + LittleBytes(8 * |m|, 8)
  }

  // What a padding is: the message, a one bit, as few zeros as fill whole blocks, and the last eight bytes.
  ghost predicate Pads(p: seq<byte>, m: seq<byte>, last: seq<byte>) {
    && |p| % 64 == 0 && |m| + 9 <= |p| < |m| + 73 && |last| == 8
    && p[..|m|] == m && p[|m|] == 128 && (forall i :: |m| < i < |p| - 8 ==> p[i] == 0) && p[|p| - 8..] == last
  }

  // The number in these bytes, the lowest first.
  function Little(bs: seq<byte>): nat {
    if bs == [] then 0 else bs[0] + 256 * Little(bs[1..])
  }

  // Both paddings end in the length in bits, as a word: the one highest byte first, the other lowest byte first.
  lemma PaddedParts(m: seq<byte>)
    ensures exists last :: Pads(PaddedBig(m), m, last) && Big(last) == 8 * |m| % WORD
    ensures exists last :: Pads(PaddedLittle(m), m, last) && Little(last) == 8 * |m| % WORD
  {
    var big, little := BigBytes(8 * |m|, 8), LittleBytes(8 * |m|, 8);
    EightBytes();
    BigRoundTrip(8 * |m|, 8);
    LittleRoundTrip(8 * |m|, 8);
    PadsWith(m, big);
    PadsWith(m, little);
  }

  lemma EightBytes()
    ensures Range(8) == WORD
  {
    assert Range(4) == 0x1_0000_0000;
    assert Range(8) == 256 * (256 * (256 * (256 * Range(4))));
  }

  lemma PadsWith(m: seq<byte>, last: seq<byte>)
    requires |last| == 8
    ensures Pads(m + [0x80] + Zeros(Gap(|m|)) + last, m, last)
  {
    GapFits(|m|);
  }

  lemma {:induction false} LittleRoundTrip(n: nat, k: nat)
    ensures Little(LittleBytes(n, k)) == n % Range(k)
    decreases k
  {
    if k > 0 {
      LittleRoundTrip(n / 256, k - 1);
      assert LittleBytes(n, k)[1..] == LittleBytes(n / 256, k - 1);
      ModSplit(n, Range(k - 1));
    }
  }

  lemma PaddedWhole(m: seq<byte>)
    ensures |PaddedBig(m)| % 64 == 0 && |PaddedLittle(m)| % 64 == 0
  {
    GapFits(|m|);
  }

  lemma GapFits(n: nat)
    ensures (n + 1 + Gap(n) + 8) % 64 == 0
  {
    var r := n % 64;
    assert n == n / 64 * 64 + r;
  }

  // ---------- the 64-bit count of bits, kept in two words ----------

  ghost predicate Counts(lo: int, hi: int, n: nat) {
    0 <= lo < WORD32 && 0 <= hi < WORD32 && lo + hi * WORD32 == 8 * n % WORD
  }

  // Adding len bytes with the carry that the code takes from the comparison.
  lemma CountMore(lo: int, hi: int, n: nat, len: nat)
    requires Counts(lo, hi, n) && len < WORD
    ensures
      var lo' := (lo + len * 8 % WORD) % WORD32;
      var hi' := ((if lo' < lo then (hi + 1) % WORD32 else hi) + len / 0x2000_0000) % WORD32;
      Counts(lo', hi', n + len)
  {
    var low := len * 8 % WORD32;
    LowPart(len);
    WordSum(lo, len * 8 % WORD, low);
    var lo' := (lo + low) % WORD32;
    var carry := if lo' < lo then 1 else 0;
    Carry(lo, low);
    CountSum(lo, hi, lo', carry, len / 0x2000_0000, low, len * 8);
    CountWrap(lo', hi + carry + len / 0x2000_0000, 8 * n, len * 8, lo + hi * WORD32);
    HighPart(hi + 1, len / 0x2000_0000);
  }

  // The same for a length of 32 bits, of which the code drops the high bits first.
  lemma CountMore32(lo: int, hi: int, n: nat, len: nat)
    requires Counts(lo, hi, n) && len < WORD32
    ensures
      var lo' := (lo + len * 8 % WORD32) % WORD32;
      var hi' := ((if lo' < lo then (hi + 1) % WORD32 else hi) + len / 0x2000_0000) % WORD32;
      Counts(lo', hi', n + len)
  {
    CountMore(lo, hi, n, len);
    LowPart(len);
    WordSum(lo, len * 8 % WORD, len * 8 % WORD32);
  }

  lemma CountSum(lo: nat, hi: nat, lo': nat, carry: nat, x: nat, low: nat, bits: nat)
    requires bits == x * WORD32 + low && lo + low == lo' + carry * WORD32
    ensures lo + hi * WORD32 + bits == lo' + (hi + carry + x) * WORD32
  {
  }

  lemma HighPart(a: nat, x: nat)
    ensures (a % WORD32 + x) % WORD32 == (a + x) % WORD32
  {
  }

  lemma LowPart(len: nat)
    ensures len * 8 == len / 0x2000_0000 * WORD32 + len * 8 % WORD32
    ensures len * 8 % WORD % WORD32 == len * 8 % WORD32
  {
  }

  lemma WordSum(a: nat, b: nat, c: nat)
    requires b % WORD32 == c
    ensures (a + b) % WORD32 == (a + c) % WORD32
  {
  }

  lemma Carry(lo: nat, low: nat)
    requires lo < WORD32 && low < WORD32
    ensures
      var lo' := (lo + low) % WORD32;
      lo + low == lo' + (if lo' < lo then WORD32 else 0)
  {
  }

  lemma CountWrap(lo: int, up: nat, a: nat, b: nat, c: nat)
    requires 0 <= lo < WORD32 && c == a % WORD && c + b == lo + up * WORD32
    ensures lo + up % WORD32 * WORD32 == (a + b) % WORD
  {
    assert (a + b) % WORD == (c + b) % WORD;
    assert up == up / WORD32 * WORD32 + up % WORD32;
    assert lo + up * WORD32 == lo + up % WORD32 * WORD32 + up / WORD32 * WORD;
  }

  // The position in the buffer is read off the low word.
  lemma CountPosition(lo: int, hi: int, n: nat)
    requires Counts(lo, hi, n)
    ensures lo / 8 % 64 == n % 64
  {
    var q := hi + 8 * n / WORD * WORD32;
    assert 8 * n == lo + q * WORD32;
    Eighth(n, lo, q);
  }

  lemma Eighth(n: nat, lo: int, q: int)
    requires 8 * n == lo + q * WORD32
    ensures lo / 8 % 64 == n % 64
  {
    var k := q * 0x80_0000;
    assert lo == 8 * (n - 64 * k);
    assert lo / 8 == n - 64 * k;
    LessWhole(n, k);
  }

  lemma LessWhole(n: int, k: int)
    ensures (n - 64 * k) % 64 == n % 64
  {
  }

  // ---------- words of the count ----------

  lemma CountWords(lo: int, hi: int, n: nat)
    requires Counts(lo, hi, n)
    ensures exists v: nat :: 8 * n == lo + (hi + v * WORD32) * WORD32
  {
    var v := 8 * n / WORD;
    assert 8 * n == lo + (hi + v * WORD32) * WORD32;
  }

  lemma GapStep(n: nat, k: nat, lo: int, hi: int)
    requires k <= Gap(n) && Counts(lo, hi, n + 1 + k)
    ensures lo / 8 % 64 == 56 <==> k == Gap(n)
  {
    CountPosition(lo, hi, n + 1 + k);
    GapExactly(n, k);
  }

  lemma GapExactly(n: nat, k: nat)
    requires k <= Gap(n)
    ensures (n + 1 + k) % 64 == 56 <==> k == Gap(n)
  {
    var r := n % 64;
    assert (n + 1 + k) % 64 == (r + 1 + k) % 64;
  }
}
