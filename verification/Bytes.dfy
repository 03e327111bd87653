/** Bytes, numbers in network byte order, and exclusive or. */
module Bytes {

  type byte = x: int | 0 <= x < 256

  // ---------- exclusive or ----------

  function Xor(a: nat, b: nat): nat
    decreases a + b
  {
    if a == 0 && b == 0 then 0 else 2 * Xor(a / 2, b / 2) + (a + b) % 2
  }

  lemma XorHalf(a: nat, b: nat)
    ensures Xor(a, b) / 2 == Xor(a / 2, b / 2) && Xor(a, b) % 2 == (a + b) % 2
  {
  }

  lemma Halves(x: nat, y: nat, a: nat, b: nat)
    requires x % 2 == (a + b) % 2 && y % 2 == (x + b) % 2 && y / 2 == a / 2
    ensures y == a
  {
  }

  lemma XorTwiceStep(a: nat, b: nat)
    requires Xor(Xor(a / 2, b / 2), b / 2) == a / 2
    ensures Xor(Xor(a, b), b) == a
  {
    var x := Xor(a, b);
    XorHalf(a, b);
    XorHalf(x, b);
    Halves(x, Xor(x, b), a, b);
  }

  lemma {:induction false} XorTwice(a: nat, b: nat)
    ensures Xor(Xor(a, b), b) == a
    decreases a + b
  {
    if a + b > 0 {
      XorTwice(a / 2, b / 2);
      XorTwiceStep(a, b);
    }
  }

  lemma {:induction false} XorBound(a: nat, b: nat, k: nat)
    requires a < Power(k) && b < Power(k)
    ensures Xor(a, b) < Power(k)
    decreases k
  {
    if k > 0 && a + b > 0 {
      XorBound(a / 2, b / 2, k - 1);
    }
  }

  function Power(k: nat): nat {
    if k == 0 then 1 else 2 * Power(k - 1)
  }

  // Bit k of a number, the lowest being bit 0.
  function Bit(n: nat, k: nat): nat {
    if k == 0 then n % 2 else Bit(n / 2, k - 1)
  }

  // Bit by bit, the result has a one where the two numbers differ.
  lemma {:induction false} XorBit(a: nat, b: nat, k: nat)
    ensures Bit(Xor(a, b), k) == if Bit(a, k) == Bit(b, k) then 0 else 1
    decreases k
  {
    XorHalf(a, b);
    if k > 0 {
      XorBit(a / 2, b / 2, k - 1);
    } else {
      SameParity(a, b);
    }
  }

  lemma SameParity(a: nat, b: nat)
    ensures (a + b) % 2 == if a % 2 == b % 2 then 0 else 1
  {
  }

  function XorByte(a: byte, b: byte): byte {
    XorBound(a, b, 8);
    assert Power(8) == 256;
    Xor(a, b)
  }

  // ---------- hexadecimal text ----------

  function HexDigit(n: nat): byte
    requires n < 16
  {
    if n < 10 then 48 + n else 87 + n
  }

  // "0123456789abcdef"
  const DIGITS: seq<byte> := [48, 49, 50, 51, 52, 53, 54, 55, 56, 57, 97, 98, 99, 100, 101, 102]

  function Hex(bs: seq<byte>): (r: seq<byte>)
    ensures |r| == 2 * |bs|
  {
    if bs == [] then []
    else
      var last := bs[|bs| - 1];
      Hex(bs[..|bs| - 1]) + [HexDigit(last / 16), HexDigit(last % 16)]
  }

  // The text has two digits for each byte, the higher one first.
  lemma {:induction false} HexAt(bs: seq<byte>, i: nat)
    requires i < |bs|
    ensures Hex(bs)[2 * i] == DIGITS[bs[i] / 16] && Hex(bs)[2 * i + 1] == DIGITS[bs[i] % 16]
  {
    var n := |bs| - 1;
    HexLast(bs);
    if i == n {
      HexDigitIs(bs[n] / 16);
      HexDigitIs(bs[n] % 16);
    } else {
      HexAt(bs[..n], i);
    }
  }

  lemma HexDigitIs(n: nat)
    requires n < 16
    ensures HexDigit(n) == DIGITS[n]
  {
  }

  // The text says what the bytes are.
  lemma {:induction false} HexInjective(a: seq<byte>, b: seq<byte>)
    requires Hex(a) == Hex(b)
    ensures a == b
  {
    assert |a| == |b|;
    if a != [] {
      var n := |a| - 1;
      HexLast(a);
      HexLast(b);
      HexInjective(a[..n], b[..n]);
      assert a == a[..n] + [a[n]] && b == b[..n] + [b[n]];
    }
  }

  lemma HexLast(a: seq<byte>)
    requires a != []
    ensures
      var n, h := |a| - 1, Hex(a);
      && h[..2 * n] == Hex(a[..n]) && h[2 * n] == HexDigit(a[n] / 16) && h[2 * n + 1] == HexDigit(a[n] % 16)
  {
  }

  // ---------- network byte order ----------

  function Big(bs: seq<byte>): nat {
    if bs == [] then 0 else 256 * Big(bs[..|bs| - 1]) + bs[|bs| - 1]
  }

  // The last k bytes of n.
  function BigBytes(n: nat, k: nat): (r: seq<byte>)
    ensures |r| == k
  {
    if k == 0 then [] else BigBytes(n / 256, k - 1) + [n % 256]
  }

  function Range(k: nat): (r: nat)
    ensures r > 0
  {
    if k == 0 then 1 else 256 * Range(k - 1)
  }

  lemma {:induction false} BigRoundTrip(n: nat, k: nat)
    ensures Big(BigBytes(n, k)) == n % Range(k)
    decreases k
  {
    if k > 0 {
      var r := BigBytes(n / 256, k - 1);
      BigRoundTrip(n / 256, k - 1);
      assert BigBytes(n, k)[..k - 1] == r;
      ModSplit(n, Range(k - 1));
    }
  }

  // n without its last k bytes.
  function Shift(n: nat, k: nat): nat
    decreases k
  {
    if k == 0 then n else Shift(n / 256, k - 1)
  }

  // A number in two parts.
  lemma {:induction false} BigBytesConcat(n: nat, j: nat, k: nat)
    ensures BigBytes(n, j + k) == BigBytes(Shift(n, k), j) + BigBytes(n, k)
    decreases k
  {
    if k > 0 {
      BigBytesConcat(n / 256, j, k - 1);
    }
  }

  // Only the last k bytes count.
  lemma {:induction false} BigBytesLow(n: nat, q: nat, k: nat)
    ensures BigBytes(n + q * Range(k), k) == BigBytes(n, k)
    decreases k
  {
    if k > 0 {
      var x := q * Range(k - 1);
      Scale(q, Range(k - 1));
      assert (n + 256 * x) / 256 == n / 256 + x;
      BigBytesLow(n / 256, q, k - 1);
    }
  }

  lemma Scale(q: nat, r: nat)
    ensures q * (256 * r) == 256 * (q * r)
  {
  }

  lemma FourBytes(n: nat)
    ensures BigBytes(n, 4) == [n / 0x100_0000 % 256, n / 0x1_0000 % 256, n / 256 % 256, n % 256]
  {
    var a, b, c := n / 256, n / 256 / 256, n / 256 / 256 / 256;
    Quotients(n, a, b, c);
    assert BigBytes(n, 4) == BigBytes(a, 3) + [n % 256];
    assert BigBytes(a, 3) == BigBytes(b, 2) + [a % 256];
    assert BigBytes(b, 2) == BigBytes(c, 1) + [b % 256];
    assert BigBytes(c, 1) == [] + [c % 256];
  }

  lemma Quotients(n: nat, a: nat, b: nat, c: nat)
    requires a == n / 256 && b == a / 256 && c == b / 256
    ensures b == n / 0x1_0000 && c == n / 0x100_0000
  {
  }

  lemma ShiftFour(n: nat)
    ensures Shift(n, 4) == n / 0x1_0000_0000
  {
  }

  lemma ModSplit(n: nat, m: nat)
    requires m > 0
    ensures n % (256 * m) == 256 * (n / 256 % m) + n % 256
  {
    var q, lo := n / 256, n % 256;
    var p, r := q / m, q % m;
    assert q == p * m + r;
    assert n == 256 * (p * m + r) + lo;
    assert n == p * (256 * m) + (256 * r + lo);
    ModUnique(n, 256 * m, p, 256 * r + lo);
  }

  lemma ModUnique(n: nat, m: nat, p: nat, r: nat)
    requires n == p * m + r && r < m
    ensures n % m == r
  {
    Monotone(n / m + 1, p, m);
    Monotone(p + 1, n / m, m);
  }

  lemma Monotone(a: nat, b: nat, m: nat)
    ensures a <= b ==> a * m <= b * m
  {
  }

  // ---------- pieces ----------

  function Concat(pieces: seq<seq<byte>>): seq<byte> {
    if pieces == [] then [] else pieces[0] + Concat(pieces[1..])
  }

  // ---------- copying ----------

  // `memcpy` of data to the index at.
  method CopyInto(a: array<byte>, at: nat, data: seq<byte>)
    requires at + |data| <= a.Length
    modifies a
    ensures forall k :: 0 <= k < a.Length ==> a[k] == if at <= k < at + |data| then data[k - at] else old(a[k])
    ensures a[..at + |data|] == old(a[..at]) + data
  {
    var i := 0;
    while i < |data|
      invariant 0 <= i <= |data|
      invariant forall k :: 0 <= k < a.Length ==> a[k] == if at <= k < at + i then data[k - at] else old(a[k])
    {
      a[at + i] := data[i];
      i := i + 1;
    }
  }

  // One more byte after the first j.
  method Put(a: array<byte>, j: nat, v: byte)
    requires j < a.Length
    modifies a
    ensures a[..j + 1] == old(a[..j]) + [v] && a[j] == v && a[..j] == old(a[..j])
    ensures forall k :: j < k < a.Length ==> a[k] == old(a[k])
  {
    a[j] := v;
  }
}
