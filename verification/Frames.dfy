/** WebSocket frames (sections 5.2 and 5.3 of RFC 6455) and how one is read off the front of some bytes. */
module Frames {
  import opened Basics
  import opened Bytes

  // The first byte of a frame and its unmasked payload.
  datatype Message = Message(bits: byte, content: seq<byte>)

  // ---------- frames as the standard describes them ----------

  datatype LengthForm = Short | Medium | Long

  // A message, the form of its length field and its masking key, which is empty for an unmasked frame.
  datatype Wire = Wire(msg: Message, form: LengthForm, key: seq<byte>)

  // The standard keeps 64-bit lengths below 2^63; what the code relies on is that the whole frame has a length.
  ghost predicate WellFormed(w: Wire) {
    && (|w.key| == 0 || |w.key| == 4)
    && match w.form
       case Short => |w.msg.content| < 126
       case Medium => |w.msg.content| < 0x1_0000
       case Long => 10 + |w.key| + |w.msg.content| < WORD
  }

  function Masked(content: seq<byte>, key: seq<byte>): (r: seq<byte>)
    requires |key| == 4
    ensures |r| == |content|
  {
    if content == [] then []
    else
      var i := |content| - 1;
      Masked(content[..i], key) + [XorByte(content[i], key[i % 4])]
  }

  function LengthField(n: nat, form: LengthForm, masked: bool): seq<byte>
    requires form == Short ==> n < 126
  {
    var bit := if masked then 128 else 0;
    match form
    case Short => [n + bit]
    case Medium => [126 + bit] + BigBytes(n, 2)
    case Long => [127 + bit] + BigBytes(n, 8)
  }

  ghost function Header(w: Wire): seq<byte>
    requires WellFormed(w)
  {
    [w.msg.bits] + LengthField(|w.msg.content|, w.form, w.key != []) + w.key
  }

  ghost function Payload(w: Wire): seq<byte>
    requires WellFormed(w)
  {
    if w.key == [] then w.msg.content else Masked(w.msg.content, w.key)
  }

  ghost function Frame(w: Wire): seq<byte>
    requires WellFormed(w)
  {
    Header(w) + Payload(w)
  }

  ghost predicate AllWellFormed(ws: seq<Wire>) {
    forall i :: 0 <= i < |ws| ==> WellFormed(ws[i])
  }

  ghost function FramesOf(ws: seq<Wire>): (fs: seq<seq<byte>>)
    requires AllWellFormed(ws)
    ensures |fs| == |ws| && forall i :: 0 <= i < |ws| ==> fs[i] == Frame(ws[i])
  {
    if ws == [] then [] else [Frame(ws[0])] + FramesOf(ws[1..])
  }

  ghost function Stream(ws: seq<Wire>): seq<byte>
    requires AllWellFormed(ws)
  {
    Concat(FramesOf(ws))
  }

  function Messages(ws: seq<Wire>): (ms: seq<Message>)
    ensures |ms| == |ws|
  {
    if ws == [] then [] else [ws[0].msg] + Messages(ws[1..])
  }

  // Each byte is masked with the byte of the key at its place modulo four.
  lemma {:induction false} MaskedAt(content: seq<byte>, key: seq<byte>, i: nat, k: nat)
    requires |key| == 4 && i < |content|
    ensures Bit(Masked(content, key)[i], k) == if Bit(content[i], k) == Bit(key[i % 4], k) then 0 else 1
  {
    var last := |content| - 1;
    if i == last {
      XorBit(content[i], key[i % 4], k);
    } else {
      MaskedAt(content[..last], key, i, k);
    }
  }

  lemma {:induction false} MaskTwice(content: seq<byte>, key: seq<byte>)
    requires |key| == 4
    ensures Masked(Masked(content, key), key) == content
  {
    if content != [] {
      var i := |content| - 1;
      MaskTwice(content[..i], key);
      assert Masked(content, key)[..i] == Masked(content[..i], key);
      XorTwice(content[i], key[i % 4]);
    }
  }

  // ---------- what one call of the reader does to the buffered bytes ----------

  // Lengths found in the buffered part of a header; header 0 means that they are not all there yet.
  datatype Lengths = Lengths(header: nat, data: nat, mask: nat)

  function ReadLengths(b: seq<byte>): (r: Lengths)
    ensures r.header != 0 ==> r.mask + 2 <= r.header <= |b| + 2 && (r.mask == 0 || r.mask == 4)
  {
    if |b| < 2 then Lengths(0, 0, 0)
    else
      var len, mask := b[1] % 128, if b[1] >= 128 then 4 else 0;
      if len < 126 && |b| >= mask then Lengths(2 + mask, len, mask)
      else if len == 126 && |b| >= 4 + mask then Lengths(4 + mask, b[2] as int * 256 + b[3], mask)
      else if |b| >= 10 + mask then
        Lengths(10 + mask, Big(b[2..6]) * 0x1_0000_0000 + Big(b[6..10]), mask)
      else Lengths(0, 0, mask)
  }

  datatype Next = More | Got(msg: Message, rest: seq<byte>)

  function NextMessage(b: seq<byte>): (r: Next)
    ensures r.Got? ==> |r.rest| < |b|
  {
    var l := ReadLengths(b);
    if l.header == 0 || l.header + l.data > |b| then More else Cut(b, l)
  }

  predicate CanCut(b: seq<byte>, l: Lengths) {
    l.mask < l.header && l.header + l.data <= |b| && (l.mask == 0 || l.mask == 4)
  }

  function Cut(b: seq<byte>, l: Lengths): (r: Next)
    requires CanCut(b, l)
    ensures r.Got? && |r.rest| < |b|
  {
    var content := b[l.header..l.header + l.data];
    var key := b[l.header - l.mask..l.header];
    Got(Message(b[0], if l.mask == 4 then Masked(content, key) else content), b[l.header + l.data..])
  }

  // The test of the code, on the sum of header and data length as a word.
  predicate Accepted(b: seq<byte>) {
    var l := ReadLengths(b);
    0 < (l.header + l.data) % WORD <= |b|
  }

  // It says the same as on the sum itself.
  ghost predicate LengthFits(b: seq<byte>) {
    var l := ReadLengths(b);
    Accepted(b) <==> 0 < l.header + l.data <= |b|
  }

  // That is exactly when the frame that is accepted lies inside the buffer: a sum that does not fit in a word must not
  // wrap around to one that is accepted.
  lemma FitsExactly(b: seq<byte>)
    requires |b| < WORD
    ensures
      var l := ReadLengths(b);
      && (LengthFits(b) <==> (Accepted(b) ==> l.header + l.data <= |b|))
      && (LengthFits(b) <==> l.header + l.data < WORD || (l.header + l.data) % WORD == 0
                             || (l.header + l.data) % WORD > |b|)
  {
    NoHeaderNoData(b);
  }

  // The announced length is 2^64 - 1: the ten bytes are accepted as a frame of nine.
  const WRAPPING: seq<byte> := [129, 127, 255, 255, 255, 255, 255, 255, 255, 255]

  lemma WrappingLength()
    ensures ReadLengths(WRAPPING) == Lengths(10, WORD - 1, 0)
    ensures Accepted(WRAPPING) && !LengthFits(WRAPPING)
  {
    AllOnes(WRAPPING[2..6]);
    AllOnes(WRAPPING[6..10]);
  }

  lemma AllOnes(b: seq<byte>)
    requires b == [255, 255, 255, 255]
    ensures Big(b) == 0xFFFF_FFFF
  {
    var one, two, three := [255], [255, 255], [255, 255, 255];
    assert one[..0] == [] && two[..1] == one && three[..2] == two && b[..3] == three;
    assert Big(one) == 255 && Big(two) == 0xFFFF && Big(three) == 0xFF_FFFF;
  }

  lemma SumFits(b: seq<byte>, n: nat)
    requires n == ReadLengths(b).header + ReadLengths(b).data < WORD
    ensures LengthFits(b)
  {
    assert n % WORD == n;
  }

  lemma NoHeaderNoData(b: seq<byte>)
    ensures ReadLengths(b).header == 0 ==> ReadLengths(b).data == 0
  {
  }

  lemma HeaderLengths(w: Wire, rest: seq<byte>)
    requires WellFormed(w)
    ensures ReadLengths(Header(w) + rest) == Lengths(|Header(w)|, |w.msg.content|, |w.key|)
    ensures (Header(w) + rest)[|Header(w)| - |w.key|..|Header(w)|] == w.key
  {
    var bits, n, field := w.msg.bits, |w.msg.content|, LengthField(|w.msg.content|, w.form, w.key != []);
    Between([bits] + field, w.key, rest);
    match w.form {
      case Short =>
      case Medium => MediumHeader(bits, n, w.key, rest);
      case Long => LongHeader(bits, n, w.key, rest);
    }
  }

  lemma Between(a: seq<byte>, x: seq<byte>, c: seq<byte>)
    ensures (a + x + c)[|a|..|a| + |x|] == x && (a + x + c)[|a| + |x|..] == c
  {
  }

  lemma MediumHeader(bits: byte, n: nat, key: seq<byte>, rest: seq<byte>)
    requires n < 0x1_0000 && (|key| == 0 || |key| == 4)
    ensures ReadLengths([bits] + LengthField(n, Medium, key != []) + key + rest) == Lengths(4 + |key|, n, |key|)
  {
    var first := if key != [] then 254 else 126;
    var b := [bits] + LengthField(n, Medium, key != []) + key + rest;
    assert b == [bits, first] + BigBytes(n, 2) + (key + rest);
    MediumLength(n);
  }

  lemma LongHeader(bits: byte, n: nat, key: seq<byte>, rest: seq<byte>)
    requires n < WORD && (|key| == 0 || |key| == 4)
    ensures ReadLengths([bits] + LengthField(n, Long, key != []) + key + rest) == Lengths(10 + |key|, n, |key|)
  {
    var first, hi, lo := if key != [] then 255 else 127, BigBytes(n, 8)[..4], BigBytes(n, 8)[4..];
    var b := [bits] + LengthField(n, Long, key != []) + key + rest;
    assert b == [bits, first] + hi + (lo + key + rest);
    Between([bits, first], hi, lo + key + rest);
    assert b == [bits, first] + hi + lo + (key + rest);
    Between([bits, first] + hi, lo, key + rest);
    LongLength(n);
  }

  lemma MediumLength(n: nat)
    requires n < 0x1_0000
    ensures BigBytes(n, 2)[0] as int * 256 + BigBytes(n, 2)[1] == n
  {
    assert BigBytes(n, 2) == BigBytes(n / 256, 1) + [n % 256];
    assert BigBytes(n / 256, 1) == BigBytes(n / 256 / 256, 0) + [n / 256 % 256];
  }

  lemma LongLength(n: nat)
    requires n < WORD
    ensures |BigBytes(n, 8)| == 8
    ensures Big(BigBytes(n, 8)[..4]) * 0x1_0000_0000 + Big(BigBytes(n, 8)[4..]) == n
  {
    assert Range(4) == 0x1_0000_0000;
    BigBytesConcat(n, 4, 4);
    ShiftFour(n);
    BigRoundTrip(n / 0x1_0000_0000, 4);
    BigRoundTrip(n, 4);
  }

  // A complete frame at the front is read as its message, whatever follows.
  lemma NextOfFrame(w: Wire, rest: seq<byte>)
    requires WellFormed(w)
    ensures NextMessage(Frame(w) + rest) == Got(w.msg, rest)
  {
    var h, p := Header(w), Payload(w);
    Associative(h, p, rest);
    HeaderLengths(w, p + rest);
    Between(h, p, rest);
    if w.key != [] {
      MaskTwice(w.msg.content, w.key);
    }
    var l := Lengths(|h|, |p|, |w.key|);
    NextIsCut(h + p + rest, l);
    CutAs(h + p + rest, l, p, w.key, rest);
  }

  lemma CutAs(b: seq<byte>, l: Lengths, payload: seq<byte>, key: seq<byte>, rest: seq<byte>)
    requires CanCut(b, l) && |key| == l.mask
    requires b[l.header..l.header + l.data] == payload && b[l.header - l.mask..l.header] == key
    requires b[l.header + l.data..] == rest
    ensures Cut(b, l) == Got(Message(b[0], if key != [] then Masked(payload, key) else payload), rest)
  {
  }

  lemma NextIsCut(b: seq<byte>, l: Lengths)
    requires CanCut(b, l) && ReadLengths(b) == l && l.header > 0
    ensures NextMessage(b) == Cut(b, l)
  {
  }

  lemma FrameFits(w: Wire, rest: seq<byte>)
    requires WellFormed(w)
    ensures LengthFits(Frame(w) + rest)
  {
    Associative(Header(w), Payload(w), rest);
    HeaderLengths(w, Payload(w) + rest);
    FrameInWord(w);
    SumFits(Frame(w) + rest, |Header(w)| + |w.msg.content|);
  }

  lemma FrameInWord(w: Wire)
    requires WellFormed(w)
    ensures |Header(w)| + |w.msg.content| < WORD
  {
  }

  // A strict prefix of a frame is not read as a message.
  lemma NextOfPrefix(w: Wire, b: seq<byte>)
    requires WellFormed(w) && b < Frame(w)
    ensures NextMessage(b) == More
    ensures LengthFits(b)
  {
    var h := Header(w);
    if |b| >= |h| {
      assert b == h + b[|h|..];
      HeaderLengths(w, b[|h|..]);
      FrameInWord(w);
      SumFits(b, |h| + |w.msg.content|);
    } else {
      assert Frame(w)[..|b|] == b;
      ShortHeader(w, b);
    }
  }

  lemma ShortHeader(w: Wire, b: seq<byte>)
    requires WellFormed(w) && b < Header(w)
    ensures NextMessage(b) == More && LengthFits(b)
  {
    var h, mask := Header(w), |w.key|;
    assert |b| < |h|;
    if |b| >= 2 {
      assert b[1] == h[1] == LengthField(|w.msg.content|, w.form, w.key != [])[0];
      ShortLengths(b, w.form, mask);
    }
    SumFits(b, ReadLengths(b).header + ReadLengths(b).data);
  }

  lemma ShortLengths(b: seq<byte>, form: LengthForm, mask: nat)
    requires |b| >= 2 && mask == if b[1] >= 128 then 4 else 0
    requires form == Short ==> b[1] % 128 < 126 && |b| < 2 + mask
    requires form == Medium ==> b[1] % 128 == 126 && |b| < 4 + mask
    requires form == Long ==> b[1] % 128 == 127 && |b| < 10 + mask
    ensures ReadLengths(b) == Lengths(0, 0, mask)
            || (form == Short && ReadLengths(b) == Lengths(2 + mask, b[1] % 128, mask))
  {
  }

  // A message that can be read stays the same when more bytes arrive.
  lemma NextExtends(a: seq<byte>, b: seq<byte>)
    requires NextMessage(a).Got?
    ensures NextMessage(a + b) == Got(NextMessage(a).msg, NextMessage(a).rest + b)
  {
    LengthsExtend(a, b);
    CutExtends(a, b, ReadLengths(a));
  }

  lemma CutExtends(a: seq<byte>, b: seq<byte>, l: Lengths)
    requires CanCut(a, l)
    ensures Cut(a + b, l) == Got(Cut(a, l).msg, Cut(a, l).rest + b)
  {
    SliceOfConcat(a, b, l.header, l.header + l.data);
    SliceOfConcat(a, b, l.header - l.mask, l.header);
    CutSame(a, a + b, l, b);
  }

  lemma CutSame(a: seq<byte>, c: seq<byte>, l: Lengths, more: seq<byte>)
    requires CanCut(a, l) && CanCut(c, l) && c[0] == a[0]
    requires c[l.header..l.header + l.data] == a[l.header..l.header + l.data]
    requires c[l.header - l.mask..l.header] == a[l.header - l.mask..l.header]
    requires c[l.header + l.data..] == a[l.header + l.data..] + more
    ensures Cut(c, l) == Got(Cut(a, l).msg, Cut(a, l).rest + more)
  {
  }

  lemma SliceOfConcat(a: seq<byte>, b: seq<byte>, i: nat, j: nat)
    requires i <= j <= |a|
    ensures (a + b)[i..j] == a[i..j] && (a + b)[j..] == a[j..] + b
  {
  }

  lemma LengthsExtend(a: seq<byte>, b: seq<byte>)
    requires ReadLengths(a).header != 0
    ensures ReadLengths(a + b) == ReadLengths(a)
  {
    assert (a + b)[1] == a[1];
    if |a| >= 10 {
      assert (a + b)[2..6] == a[2..6] && (a + b)[6..10] == a[6..10];
    }
  }
}
