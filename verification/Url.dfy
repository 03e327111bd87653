/** Percent-encoding (section 2.1 of RFC 3986): encoding, decoding, and decoding a buffer in place. */
module Url {
  import opened Basics
  import opened Bytes

  const PERCENT: byte := 37
  const PLUS: byte := 43
  const SPACE: byte := 32

  predicate IsDigit(c: byte) {
    48 <= c <= 57
  }

  predicate IsAlnum(c: byte) {
    IsDigit(c) || 65 <= c <= 90 || 97 <= c <= 122
  }

  predicate IsXdigit(c: byte) {
    IsDigit(c) || 65 <= c <= 70 || 97 <= c <= 102
  }

  function ToLower(c: byte): byte {
    if 65 <= c <= 90 then c + 32 else c
  }

  // The value of a hexadecimal digit; in lower case a letter is 'W' + 10 and more.
  function HexToI(c: byte): nat
    requires IsXdigit(c)
  {
    var d := ToLower(c);
    if IsDigit(d) then d - 48 else d - 87
  }

  // ".", "_", "-", "$", ",", ";", "~", "(" and ")", and the terminator of that string.
  const DONT_ESCAPE: seq<byte> := [46, 95, 45, 36, 44, 59, 126, 40, 41, 0]

  // ---------- what the two functions compute ----------

  function EncodedByte(c: byte): seq<byte> {
    if IsAlnum(c) || c in DONT_ESCAPE then [c] else [PERCENT, HexDigit(c / 16), HexDigit(c % 16)]
  }

  function Encoded(src: seq<byte>): seq<byte> {
    if src == [] then [] else Encoded(src[..|src| - 1]) + EncodedByte(src[|src| - 1])
  }

  // An escape is a percent sign and two hexadecimal digits.
  predicate StartsEscape(src: seq<byte>) {
    |src| > 2 && src[0] == PERCENT && IsXdigit(src[1]) && IsXdigit(src[2])
  }

  function FirstLength(src: seq<byte>): (n: nat)
    requires src != []
    ensures 1 <= n <= |src|
  {
    if StartsEscape(src) then 3 else 1
  }

  function FirstByte(src: seq<byte>, form: bool): byte
    requires src != []
  {
    if StartsEscape(src) then 16 * HexToI(src[1]) + HexToI(src[2])
    else if form && src[0] == PLUS then SPACE
    else src[0]
  }

  function Decoded(src: seq<byte>, form: bool): seq<byte> {
    if src == [] then [] else [FirstByte(src, form)] + Decoded(src[FirstLength(src)..], form)
  }

  // ---------- the round trip ----------

  lemma HexRoundTrip(n: nat)
    requires n < 16
    ensures IsXdigit(HexDigit(n)) && HexToI(HexDigit(n)) == n
  {
  }

  // The first encoded byte is decoded first.
  lemma FirstEncoded(c: byte, rest: seq<byte>, form: bool)
    ensures
      var src := EncodedByte(c) + rest;
      FirstByte(src, form) == c && FirstLength(src) == |EncodedByte(c)|
  {
    if IsAlnum(c) || c in DONT_ESCAPE {
      assert c != PERCENT && c != PLUS;
    } else {
      HexRoundTrip(c / 16);
      HexRoundTrip(c % 16);
    }
  }

  lemma DecodeByte(c: byte, rest: seq<byte>, form: bool)
    ensures Decoded(EncodedByte(c) + rest, form) == [c] + Decoded(rest, form)
  {
    var src := EncodedByte(c) + rest;
    FirstEncoded(c, rest, form);
    assert src[|EncodedByte(c)|..] == rest;
  }

  lemma {:induction false} DecodeMore(src: seq<byte>, rest: seq<byte>, form: bool)
    ensures Decoded(Encoded(src) + rest, form) == src + Decoded(rest, form)
    decreases |src|
  {
    if src == [] {
      assert Encoded(src) + rest == rest;
    } else {
      var init, c := src[..|src| - 1], src[|src| - 1];
      EncodedSnoc(init, c, rest);
      assert src == init + [c];
      DecodeMore(init, EncodedByte(c) + rest, form);
      DecodeByte(c, rest, form);
      Associative(init, [c], Decoded(rest, form));
    }
  }

  lemma EncodedSnoc(init: seq<byte>, c: byte, rest: seq<byte>)
    ensures Encoded(init + [c]) + rest == Encoded(init) + (EncodedByte(c) + rest)
  {
    assert (init + [c])[..|init|] == init;
    Associative(Encoded(init), EncodedByte(c), rest);
  }

  // The value of a hexadecimal digit of either case.
  predicate HexValue(c: byte, v: nat) {
    (48 <= c <= 57 && v == c - 48) || (65 <= c <= 70 && v == c - 55) || (97 <= c <= 102 && v == c - 87)
  }

  ghost predicate NoHex(c: byte) {
    forall v :: !HexValue(c, v)
  }

  // What stands first is decoded by itself: an escape to the byte it names, a `+` to a space if it stands for one, and
  // any other byte to itself, a percent sign that begins no escape included.
  lemma DecodedFirst(src: seq<byte>, form: bool, a: nat, b: nat)
    requires src != []
    ensures |src| > 2 && src[0] == 37 && HexValue(src[1], a) && HexValue(src[2], b) ==>
              Decoded(src, form) == [(16 * a + b) as byte] + Decoded(src[3..], form)
    ensures src[0] == 43 ==> Decoded(src, form) == [if form then 32 else 43] + Decoded(src[1..], form)
    ensures src[0] != 43 && (src[0] != 37 || |src| < 3 || NoHex(src[1]) || NoHex(src[2])) ==>
              Decoded(src, form) == [src[0]] + Decoded(src[1..], form)
  {
    if |src| > 2 {
      XdigitIff(src[1]);
      XdigitIff(src[2]);
    }
  }

  lemma XdigitIff(c: byte)
    ensures IsXdigit(c) <==> !NoHex(c)
  {
    if IsXdigit(c) {
      assert HexValue(c, HexToI(c));
    }
  }

  // Letters, digits and the exempt bytes are encoded as they are, and any other byte as an escape in lower case.
  lemma EncodedFirst(c: byte, rest: seq<byte>)
    ensures
      var plain := 48 <= c <= 57 || 65 <= c <= 90 || 97 <= c <= 122 || c in [46, 95, 45, 36, 44, 59, 126, 40, 41, 0];
      Encoded([c] + rest) == (if plain then [c] else [37, DIGITS[c / 16], DIGITS[c % 16]]) + Encoded(rest)
  {
    HexDigitIs(c / 16);
    HexDigitIs(c % 16);
    EncodedCons(c, rest);
  }

  lemma {:induction false} EncodedCons(c: byte, rest: seq<byte>)
    ensures Encoded([c] + rest) == EncodedByte(c) + Encoded(rest)
    decreases |rest|
  {
    if rest == [] {
      assert [c] + rest == [c] && [c][..0] == [];
      assert Encoded([]) == [];
    } else {
      var init, last := rest[..|rest| - 1], rest[|rest| - 1];
      assert ([c] + rest)[..|rest|] == [c] + init;
      EncodedCons(c, init);
      Associative(EncodedByte(c), Encoded(init), EncodedByte(last));
    }
  }

  // Decoding what was encoded gives every byte string back, whether or not '+' stands for a space.
  lemma RoundTrip(src: seq<byte>, form: bool)
    ensures Decoded(Encoded(src), form) == src
  {
    DecodeMore(src, [], form);
    assert Encoded(src) + [] == Encoded(src);
  }

  // The output holds no byte that has to be escaped.
  lemma {:induction false} EncodedIsPlain(src: seq<byte>)
    ensures forall c :: c in Encoded(src) ==> IsAlnum(c) || c in DONT_ESCAPE || c == PERCENT
  {
    if src != [] {
      EncodedIsPlain(src[..|src| - 1]);
      HexRoundTrip(src[|src| - 1] / 16);
      HexRoundTrip(src[|src| - 1] % 16);
    }
  }

  // ---------- the loops ----------

  // dstLen is the room in dst, the terminator included; src and dst may be the same array.
  method MgUrlDecode(src: array<byte>, srcLen: nat, dst: array<byte>, dstLen: nat, form: bool) returns (r: int)
    requires srcLen <= src.Length && 1 <= dstLen <= dst.Length
    modifies dst
    ensures
      var d := Decoded(old(src[..srcLen]), form);
      var j := if |d| < dstLen then |d| else dstLen - 1;
      dst[..j] == d[..j] && dst[j] == 0 && r == if |d| < dstLen then |d| else -1
  {
    ghost var s, d := src[..srcLen], Decoded(src[..srcLen], form);
    var i, j, rest := DecodeLoop(src, srcLen, dst, dstLen, form, s, d);
    DecodedEnd(form, dst[..j], rest, d, dstLen);
    Put(dst, j, 0);
    r := if i >= srcLen then j else -1;
  }

  // From index i on, src holds the bytes rest.
  ghost predicate Holds(src: array<byte>, i: nat, n: nat, rest: seq<byte>)
    reads src
  {
    i + |rest| == n <= src.Length && forall k :: 0 <= k < |rest| ==> src[i + k] == rest[k]
  }

  // The bytes decoded so far are in out, rest is still to be decoded, and d is the whole result.
  ghost predicate SoFar(form: bool, out: seq<byte>, rest: seq<byte>, d: seq<byte>) {
    d == out + Decoded(rest, form)
  }

  // Decodes until the input or the room is used up.
  method DecodeLoop(src: array<byte>, srcLen: nat, dst: array<byte>, dstLen: nat, form: bool, ghost s: seq<byte>,
                    ghost d: seq<byte>)
    returns (i: nat, j: nat, ghost rest: seq<byte>)
    requires 1 <= dstLen <= dst.Length && Holds(src, 0, srcLen, s) && SoFar(form, [], s, d)
    modifies dst
    ensures j < dstLen && i + |rest| == srcLen && (rest != [] ==> j == dstLen - 1) && SoFar(form, dst[..j], rest, d)
  {
    i, j, rest := 0, 0, s;
    assert dst[..j] == [];
    while i < srcLen && j < dstLen - 1
      invariant j <= i && j < dstLen && Holds(src, i, srcLen, rest) && SoFar(form, dst[..j], rest, d)
      decreases |rest|
    {
      var out, step := DecodeOne(src, i, srcLen, form, rest);
      DecodedNext(form, dst[..j], rest, d);
      Put(dst, j, out);
      i, j, rest := i + step, j + 1, rest[step..];
    }
  }

  lemma DecodedEnd(form: bool, out: seq<byte>, rest: seq<byte>, d: seq<byte>, dstLen: nat)
    requires SoFar(form, out, rest, d) && |out| < dstLen && (rest != [] ==> |out| == dstLen - 1)
    ensures |d| < dstLen <==> rest == []
    ensures out == if |d| < dstLen then d else d[..dstLen - 1]
  {
  }

  method DecodeOne(src: array<byte>, i: nat, srcLen: nat, form: bool, ghost rest: seq<byte>)
    returns (out: byte, step: nat)
    requires Holds(src, i, srcLen, rest) && rest != []
    ensures out == FirstByte(rest, form) && step == FirstLength(rest)
  {
    assert rest[0] == src[i + 0];
    assert |rest| > 2 ==> rest[1] == src[i + 1] && rest[2] == src[i + 2];
    if src[i] == PERCENT && i + 2 < srcLen && IsXdigit(src[i + 1]) && IsXdigit(src[i + 2]) {
      out, step := 16 * HexToI(src[i + 1]) + HexToI(src[i + 2]), 3;
    } else if form && src[i] == PLUS {
      out, step := SPACE, 1;
    } else {
      out, step := src[i], 1;
    }
  }

  lemma DecodedNext(form: bool, out: seq<byte>, rest: seq<byte>, d: seq<byte>)
    requires rest != [] && SoFar(form, out, rest, d)
    ensures SoFar(form, out + [FirstByte(rest, form)], rest[FirstLength(rest)..], d)
  {
    Associative(out, [FirstByte(rest, form)], Decoded(rest[FirstLength(rest)..], form));
  }

  // As many bytes are encoded as leave room for an escape and the terminator; k counts them.
  method MgUrlEncode(src: seq<byte>, dst: array<byte>, dstLen: nat) returns (j: nat, ghost k: nat)
    requires 1 <= dst.Length && dstLen <= dst.Length
    modifies dst
    ensures k <= |src| && (j == 0 || j < dstLen) && dst[..j] == Encoded(src[..k]) && dst[j] == 0
    ensures forall i :: 0 <= i < k ==> |Encoded(src[..i])| + 3 < dstLen
    ensures k < |src| ==> j + 3 >= dstLen
  {
    var i := 0;
    j := 0;
    while i < |src| && j + 2 < dstLen - 1
      invariant 0 <= i <= |src| && (j == 0 || j < dstLen) && dst[..j] == Encoded(src[..i])
      invariant forall l :: 0 <= l < i ==> |Encoded(src[..l])| + 3 < dstLen
    {
      EncodedNext(src, i);
      j := EncodeOne(src[i], dst, j, dstLen);
      i := i + 1;
    }
    k := i;
    ghost var out := dst[..j];
    dst[j] := 0;
    assert dst[..j] == out;
  }

  method EncodeOne(c: byte, dst: array<byte>, j: nat, dstLen: nat) returns (next: nat)
    requires j + 3 < dstLen <= dst.Length
    modifies dst
    ensures j < next <= j + 3 && dst[..next] == old(dst[..j]) + EncodedByte(c)
  {
    next := j;
    if IsAlnum(c) || c in DONT_ESCAPE {
      dst[j] := c;
      next := j + 1;
    } else if j + 3 < dstLen {
      dst[j] := PERCENT;
      dst[j + 1] := HexDigit(c / 16);
      dst[j + 2] := HexDigit(c % 16);
      next := j + 3;
    }
    assert dst[..j] == old(dst[..j]) && dst[j..next] == EncodedByte(c);
    assert dst[..next] == dst[..j] + dst[j..next];
  }

  lemma EncodedNext(src: seq<byte>, i: nat)
    requires i < |src|
    ensures Encoded(src[..i + 1]) == Encoded(src[..i]) + EncodedByte(src[i])
  {
    assert src[..i + 1][..i] == src[..i];
  }

  // A buffer three bytes longer than the encoding holds all of it.
  lemma RoomEnough(src: seq<byte>, k: nat, dstLen: nat)
    requires k <= |src| && dstLen >= |Encoded(src)| + 3
    requires k < |src| ==> |Encoded(src[..k])| + 3 >= dstLen
    ensures k == |src|
  {
    if k < |src| {
      EncodedGrows(src, k);
    }
  }

  lemma {:induction false} EncodedGrows(src: seq<byte>, k: nat)
    requires k < |src|
    ensures |Encoded(src[..k])| < |Encoded(src)|
  {
    var init := src[..|src| - 1];
    if k < |init| {
      EncodedGrows(init, k);
      assert init[..k] == src[..k];
    }
  }
}
