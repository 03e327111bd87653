/** The WebSocket reader and writer over growable buffers. */
module WebSocket {
  import opened Basics
  import opened Bytes
  import opened Frames
  import opened Chunks

  // ---------- the reader of frames as a reader ----------

  // Always true: a handle by which a proof says for which bytes it wants to know what the reader does. The quantifier
  // in Meaning has it as its trigger, and so does nothing elsewhere.
  predicate Buffered(b: seq<byte>) {
    true
  }

  // The connection knows the reader as a function value, so that proofs about its loop need not look inside.
  ghost predicate Meaning(read: Reader, fits: Test) {
    forall b {:trigger Buffered(b)} :: Buffered(b) ==> read(b) == NextMessage(b) && fits(b) == LengthFits(b)
  }

  lemma MeaningSound(read: Reader, fits: Test)
    requires Meaning(read, fits)
    ensures Sound(read)
  {
    forall b ensures read(b).Got? ==> |read(b).rest| < |b| {
      assert Buffered(b);
    }
    forall a, b | read(a).Got? ensures read(a + b) == Got(read(a).msg, read(a).rest + b) {
      assert Buffered(a) && Buffered(a + b);
      NextExtends(a, b);
    }
  }

  lemma MeaningFrames(read: Reader, fits: Test)
    requires Meaning(read, fits)
    ensures ReadsFrames(read) && PassesFrames(fits)
  {
    MeaningSound(read, fits);
    assert Buffered([]);
    forall w, rest | WellFormed(w) ensures read(Frame(w) + rest) == Got(w.msg, rest) && fits(Frame(w) + rest) {
      MeaningFrame(read, fits, w, rest);
    }
    forall w, b | Partial(w, b) ensures read(b) == More && fits(b) {
      MeaningPrefix(read, fits, w, b);
    }
  }

  lemma MeaningFrame(read: Reader, fits: Test, w: Wire, rest: seq<byte>)
    requires Meaning(read, fits) && WellFormed(w)
    ensures read(Frame(w) + rest) == Got(w.msg, rest) && fits(Frame(w) + rest)
  {
    NextOfFrame(w, rest);
    ReadAs(read, fits, Frame(w) + rest, Got(w.msg, rest));
    FitsFrame(read, fits, w, rest);
  }

  lemma FitsFrame(read: Reader, fits: Test, w: Wire, rest: seq<byte>)
    requires Meaning(read, fits) && WellFormed(w)
    ensures fits(Frame(w) + rest)
  {
    assert Buffered(Frame(w) + rest);
    FrameFits(w, rest);
  }

  lemma ReadAs(read: Reader, fits: Test, b: seq<byte>, next: Next)
    requires Meaning(read, fits) && NextMessage(b) == next
    ensures read(b) == next
  {
    assert Buffered(b);
  }

  lemma MeaningPrefix(read: Reader, fits: Test, w: Wire, b: seq<byte>)
    requires Meaning(read, fits) && Partial(w, b)
    ensures read(b) == More && fits(b)
  {
    assert Buffered(b);
    NextOfPrefix(w, b);
  }

  // ---------- the growable buffer ----------

  class Iobuf {
    var buf: array<byte>
    var len: nat

    ghost predicate Valid()
      reads this
    {
      len <= buf.Length
    }

    ghost function Bytes(): seq<byte>
      reads this, buf
      requires Valid()
    {
      buf[..len]
    }

    constructor (size: nat)
      ensures Valid() && fresh(buf) && buf.Length == size && Bytes() == []
    {
      buf := new byte[size];
      len := 0;
    }

    // The buffer grows to what is needed when there is no room.
    method Append(data: seq<byte>) returns (appended: nat)
      requires Valid()
      modifies this, buf
      ensures Valid() && Bytes() == old(Bytes()) + data && appended == |data|
      ensures if old(len) + |data| <= old(buf.Length) then buf == old(buf) else fresh(buf) && buf.Length == len
    {
      appended := |data|;
      if len + |data| > buf.Length {
        var p := new byte[len + |data|];
        CopyInto(p, 0, buf[..len]);
        assert p[..len] == old(Bytes());
        buf := p;
      }
      CopyInto(buf, len, data);
      len := len + |data|;
      assert buf[..len] == old(Bytes()) + data;
    }

    // Drops the first n bytes by moving the others to the front.
    method Remove(n: nat)
      requires Valid()
      modifies this`len, buf
      ensures Valid()
      ensures Bytes() == if n <= old(len) then old(Bytes())[n..] else old(Bytes())
    {
      if n > 0 && n <= len {
        var rest := len - n;
        ghost var was := Bytes();
        MoveDown(buf, n, rest);
        len := rest;
        assert buf[..len] == was[n..];
      }
    }
  }

  // `memmove` of count elements from index n to the front.
  method MoveDown(a: array<byte>, n: nat, count: nat)
    requires n + count <= a.Length
    modifies a
    ensures forall k :: 0 <= k < count ==> a[k] == old(a[k + n])
  {
    var i := 0;
    while i < count
      invariant 0 <= i <= count
      invariant forall k :: 0 <= k < i ==> a[k] == old(a[k + n])
      invariant forall k :: i <= k < a.Length ==> a[k] == old(a[k])
    {
      a[i] := a[i + n];
      i := i + 1;
    }
  }

  // ---------- the connection ----------

  const WEBSOCKET_OPCODE_CONNECTION_CLOSE := 8

  class Connection {
    const recv: Iobuf
    const send: Iobuf
    const keep: Message -> bool // the user's handler, as whether it wants the connection to stay open
    var received: seq<Message>  // the messages that the handler was called with
    var finished: bool
    ghost const read: Reader
    ghost const fits: Test

    ghost predicate Valid()
      reads this, recv, send
    {
      recv.Valid() && send.Valid() && recv != send && Meaning(read, fits)
    }

    constructor (keep: Message -> bool)
      ensures Valid() && recv.Bytes() == [] && send.Bytes() == [] && received == [] && !finished
      ensures this.keep == keep && fresh(recv) && fresh(recv.buf) && fresh(send) && fresh(send.buf)
      ensures forall ws :: AllWellFormed(ws) ==> HandedOver(ws, [], received, recv.Bytes())
    {
      recv := new Iobuf(0);
      send := new Iobuf(0);
      this.keep := keep;
      received := [];
      finished := false;
      read := NextMessage;
      fits := b => LengthFits(b);
      new;
      forall ws | AllWellFormed(ws) ensures HandedOver(ws, [], received, recv.Bytes()) {
        NothingHandedOver(ws);
      }
    }

    // A 32-bit number in network byte order.
    method Htonl(at: nat) returns (n: nat)
      requires Valid() && at + 4 <= recv.len
      ensures n == Big(recv.Bytes()[at..at + 4])
    {
      n := 0;
      var i := 0;
      while i < 4
        invariant 0 <= i <= 4 && n == Big(recv.Bytes()[at..at + i])
      {
        assert recv.Bytes()[at..at + i + 1][..i] == recv.Bytes()[at..at + i];
        n := 256 * n + recv.buf[at + i];
        i := i + 1;
      }
    }

    method ReadHeader() returns (l: Lengths)
      requires Valid()
      ensures l == ReadLengths(recv.Bytes())
    {
      var buf, bufLen := recv.buf, recv.len;
      if bufLen < 2 { return Lengths(0, 0, 0); }
      var len, maskLen := buf[1] % 128, if buf[1] >= 128 then 4 else 0;
      if len < 126 && bufLen >= maskLen {
        return Lengths(2 + maskLen, len, maskLen);
      } else if len == 126 && bufLen >= 4 + maskLen {
        return Lengths(4 + maskLen, buf[2] as int * 256 + buf[3], maskLen);
      } else if bufLen >= 10 + maskLen {
        var hi := Htonl(2);
        var lo := Htonl(6);
        return Lengths(10 + maskLen, hi * 0x1_0000_0000 + lo, maskLen);
      }
      return Lengths(0, 0, maskLen);
    }

    // Takes the key off the payload, in place.
    method Unmask(header: nat, data: nat)
      requires Valid() && 4 <= header && header + data <= recv.len
      modifies recv.buf
      ensures Valid()
      ensures recv.Bytes() == Unmasked(old(recv.Bytes()), header, data)
    {
      ghost var b := recv.Bytes();
      NothingUnmasked(b, header);
      var i := 0;
      while i < data
        invariant 0 <= i <= data && recv.Bytes() == Unmasked(b, header, i)
      {
        UnmaskedStep(b, header, i);
        recv.buf[header + i] := XorByte(recv.buf[header + i], recv.buf[header - 4 + i % 4]);
        i := i + 1;
      }
    }

    method DeliverWebsocketFrame() returns (buffered: bool)
      requires Valid() && fits(recv.Bytes())
      modifies this`received, this`finished, recv`len, recv.buf
      ensures Valid()
      ensures read(old(recv.Bytes())) == More ==>
                !buffered && recv.Bytes() == old(recv.Bytes()) && received == old(received) && finished == old(finished)
      ensures read(old(recv.Bytes())).Got? ==>
                var msg := read(old(recv.Bytes())).msg;
                && buffered && recv.Bytes() == read(old(recv.Bytes())).rest && received == old(received) + [msg]
                && finished == (old(finished) || Closing(keep, msg))
    {
      var l;
      buffered, l := Measure();
      if buffered {
        var msg := TakeMessage(l);
        received := received + [msg];
        if !keep(msg) || msg.bits % 16 == WEBSOCKET_OPCODE_CONNECTION_CLOSE {
          finished := true;
        }
        recv.Remove(l.header + l.data);
      }
    }

    // Whether a whole frame is there, and the lengths of its parts.
    method Measure() returns (buffered: bool, l: Lengths)
      requires Valid() && fits(recv.Bytes())
      ensures buffered == read(recv.Bytes()).Got?
      ensures buffered ==> CanCut(recv.Bytes(), l) && read(recv.Bytes()) == Cut(recv.Bytes(), l)
    {
      l := ReadHeader();
      FrameLength(read, fits, recv.Bytes());
      var frameLen := (l.header + l.data) % WORD;
      buffered := frameLen > 0 && frameLen <= recv.len;
    }

    // The message, unmasked where it lies.
    method TakeMessage(l: Lengths) returns (msg: Message)
      requires Valid() && CanCut(recv.Bytes(), l)
      modifies recv.buf
      ensures Valid()
      ensures Cut(old(recv.Bytes()), l) == Got(msg, recv.Bytes()[l.header + l.data..])
    {
      ghost var b := recv.Bytes();
      if l.mask > 0 {
        Unmask(l.header, l.data);
      }
      assert recv.Bytes() == if l.mask > 0 then Unmasked(b, l.header, l.data) else b;
      msg := Message(recv.buf[0], recv.buf[l.header..l.header + l.data]);
      assert msg == Message(recv.Bytes()[0], recv.Bytes()[l.header..l.header + l.data]);
      CutOf(b, recv.Bytes(), l);
    }

    // Delivers as long as a whole frame is there.
    method DeliverAll()
      requires Valid() && Sound(read) && AllFit(read, fits, recv.Bytes())
      modifies this`received, this`finished, recv`len, recv.buf
      ensures Valid()
      ensures received == old(received) + Drained(read, old(recv.Bytes()))
      ensures recv.Bytes() == Remainder(read, old(recv.Bytes()))
      ensures Finishes(keep, old(received), old(finished), received, finished)
    {
      var more := true;
      while more
        invariant Finishes(keep, old(received), old(finished), received, finished)
        invariant Valid() && AllFit(read, fits, recv.Bytes())
        invariant received + Drained(read, recv.Bytes()) == old(received) + Drained(read, old(recv.Bytes()))
        invariant Remainder(read, recv.Bytes()) == Remainder(read, old(recv.Bytes()))
        invariant !more ==> read(recv.Bytes()) == More
        decreases |recv.Bytes()|, more
      {
        ghost var before, closed := received, finished;
        more := DeliverWebsocketFrame();
        if more {
          FinishesOnce(keep, before, closed, received, finished);
          FinishesTwice(keep, old(received), old(finished), before, closed, received, finished);
        }
      }
    }

    // Bytes from the network are buffered, and all whole frames are delivered.
    method OnRecvData(chunk: seq<byte>)
      requires Valid() && Sound(read) && AllFit(read, fits, recv.Bytes() + chunk)
      modifies this`received, this`finished, recv, recv.buf
      ensures Valid() && (recv.buf == old(recv.buf) || fresh(recv.buf))
      ensures received == old(received) + Drained(read, old(recv.Bytes()) + chunk)
      ensures recv.Bytes() == Remainder(read, old(recv.Bytes()) + chunk)
      ensures Finishes(keep, old(received), old(finished), received, finished)
    {
      var _ := recv.Append(chunk);
      DeliverAll();
    }

    // What the poll loop does with the chunks of a stream of frames as they arrive, after the first bytes of the
    // stream.
    method ReceiveChunks(chunks: seq<seq<byte>>, ghost ws: seq<Wire>, ghost first: seq<byte>)
      requires Valid() && AllWellFormed(ws) && first + Concat(chunks) <= Stream(ws)
      requires HandedOver(ws, first, received, recv.Bytes())
      modifies this`received, this`finished, recv, recv.buf
      ensures Valid() && HandedOver(ws, first + Concat(chunks), received, recv.Bytes())
      ensures recv.buf == old(recv.buf) || fresh(recv.buf)
      ensures Finishes(keep, old(received), old(finished), received, finished)
    {
      MeaningFrames(read, fits);
      HandedOverOnce(read, ws, first, received, recv.Bytes());
      ghost var seen := first;
      var coming := chunks;
      while coming != []
        invariant Valid() && (recv.buf == old(recv.buf) || fresh(recv.buf))
        invariant seen + Concat(coming) == first + Concat(chunks)
        invariant received == Drained(read, seen) && recv.Bytes() == Remainder(read, seen)
        invariant Finishes(keep, old(received), old(finished), received, finished)
        decreases |coming|
      {
        ghost var before, closed := received, finished;
        ChunkStep(read, fits, ws, coming, seen);
        OnRecvData(coming[0]);
        FinishesTwice(keep, old(received), old(finished), before, closed, received, finished);
        seen := seen + coming[0];
        coming := coming[1..];
      }
      assert seen + [] == seen;
      ReceivedBy(read, ws, seen);
    }

    // Refuses data for which the length of the frame would not fit in a word.
    method WebsocketWrite(opcode: int, data: seq<byte>) returns (sent: nat)
      requires Valid()
      modifies this`finished, send, send.buf
      ensures Valid() && (send.buf == old(send.buf) || fresh(send.buf))
      ensures |data| > WORD - 11 ==> sent == 0 && send.Bytes() == old(send.Bytes()) && finished == old(finished)
      ensures |data| <= WORD - 11 ==>
                && WellFormed(Written(opcode, data))
                && send.Bytes() == old(send.Bytes()) + Frame(Written(opcode, data)) && sent == |send.Bytes()|
                && finished == (old(finished) || opcode == WEBSOCKET_OPCODE_CONNECTION_CLOSE)
    {
      if |data| > WORD - 1 - 10 { return 0; }
      var copy, copyLen := BuildFrame(opcode, data);
      var _ := send.Append(copy[..copyLen]);
      if opcode == WEBSOCKET_OPCODE_CONNECTION_CLOSE {
        finished := true;
      }
      sent := send.len;
    }
  }

  // After this message the connection is to be closed: the handler says so, or the message does.
  ghost predicate Closing(keep: Message -> bool, msg: Message) {
    !keep(msg) || msg.bits % 16 == WEBSOCKET_OPCODE_CONNECTION_CLOSE
  }

  // Messages are handed over, and the connection is marked for closing exactly if one of them asks for it or it was
  // marked before.
  ghost predicate Finishes(keep: Message -> bool, before: seq<Message>, closed: bool, after: seq<Message>,
                           closed': bool)
  {
    && before <= after
    && closed' == (closed || exists i :: |before| <= i < |after| && Closing(keep, after[i]))
  }

  lemma FinishesOnce(keep: Message -> bool, before: seq<Message>, closed: bool, after: seq<Message>, closed': bool)
    requires |after| == |before| + 1 && before <= after && closed' == (closed || Closing(keep, after[|before|]))
    ensures Finishes(keep, before, closed, after, closed')
  {
  }

  lemma FinishesTwice(keep: Message -> bool, a: seq<Message>, x: bool, b: seq<Message>, y: bool, c: seq<Message>,
                      z: bool)
    requires Finishes(keep, a, x, b, y) && Finishes(keep, b, y, c, z)
    ensures Finishes(keep, a, x, c, z)
  {
    forall i | |a| <= i < |b| ensures b[i] == c[i] {
    }
  }

  // The bytes before the data.
  ghost function WrittenHeader(opcode: int, n: nat): seq<byte>
    requires n <= WORD - 11
  {
    if n < 126 then [128 + opcode % 16, n]
    else if n <= 0xFFFF then [128 + opcode % 16, 126] + BigBytes(n, 2)
    else [128 + opcode % 16, 127] + BigBytes(n / 0x1_0000_0000, 4) + BigBytes(n, 4)
  }

  method BuildFrame(opcode: int, data: seq<byte>) returns (copy: array<byte>, copyLen: nat)
    requires |data| <= WORD - 11
    ensures WellFormed(Written(opcode, data))
    ensures fresh(copy) && copyLen <= copy.Length && copy[..copyLen] == Frame(Written(opcode, data))
  {
    copy := new byte[|data| + 10];
    copy[0] := 0x80 + opcode % 16;
    if |data| < 126 {
      copy[1] := |data|;
      assert copy[..2] == WrittenHeader(opcode, |data|);
      copyLen := 2;
    } else if |data| <= 0xFFFF {
      copy[1] := 126;
      assert copy[..2] == [copy[0], copy[1]];
      CopyInto(copy, 2, BigBytes(|data|, 2));
      copyLen := 4;
    } else {
      copy[1] := 127;
      assert copy[..2] == [copy[0], copy[1]];
      CopyInto(copy, 2, BigBytes(|data| / 0x1_0000_0000, 4));
      CopyInto(copy, 6, BigBytes(|data|, 4));
      copyLen := 10;
    }
    CopyInto(copy, copyLen, data);
    copyLen := copyLen + |data|;
    WrittenFrame(opcode, data);
  }

  lemma WrittenFrame(opcode: int, data: seq<byte>)
    requires |data| <= WORD - 11
    ensures WellFormed(Written(opcode, data))
    ensures Frame(Written(opcode, data)) == WrittenHeader(opcode, |data|) + data
  {
    if |data| > 0xFFFF {
      ShiftFour(|data|);
      BigBytesConcat(|data|, 4, 4);
    }
    LengthBytes(128 + opcode % 16, |data|, Written(opcode, data).form);
  }

  lemma LengthBytes(bits: byte, n: nat, form: LengthForm)
    requires form == Short ==> n < 126
    ensures [bits] + LengthField(n, form, false) + []
         == if form == Short then [bits, n]
            else if form == Medium then [bits, 126] + BigBytes(n, 2)
            else [bits, 127] + BigBytes(n, 8)
  {
  }

  lemma ChunkStep(read: Reader, fits: Test, ws: seq<Wire>, coming: seq<seq<byte>>, seen: seq<byte>)
    requires Meaning(read, fits) && Sound(read) && AllWellFormed(ws) && coming != []
    requires seen + Concat(coming) <= Stream(ws)
    ensures AllFit(read, fits, Remainder(read, seen) + coming[0])
    ensures seen + coming[0] + Concat(coming[1..]) == seen + Concat(coming)
    ensures Drained(read, seen + coming[0]) == Drained(read, seen) + Drained(read, Remainder(read, seen) + coming[0])
    ensures Remainder(read, seen + coming[0]) == Remainder(read, Remainder(read, seen) + coming[0])
  {
    Associative(seen, coming[0], Concat(coming[1..]));
    PrefixOfPrefix(seen + coming[0], Concat(coming[1..]), Stream(ws));
    MeaningFrames(read, fits);
    NextChunkFits(read, fits, ws, seen, coming[0]);
    DrainExtends(read, seen, coming[0]);
  }

  // The frame that the writer makes of data: no mask, and the shortest length field.
  function Written(opcode: int, data: seq<byte>): Wire {
    var form := if |data| < 126 then Short else if |data| <= 0xFFFF then Medium else Long;
    Wire(Message(128 + opcode % 16, data), form, [])
  }

  // The frame is final, has the opcode and no reserved bit, and no other frame of the data without a mask is shorter.
  lemma WrittenShortest(opcode: int, data: seq<byte>, w: Wire)
    requires |data| <= WORD - 11 && WellFormed(w) && w.key == [] && w.msg.content == data
    ensures
      var bits := Written(opcode, data).msg.bits;
      && bits / 128 == 1 && bits / 16 % 8 == 0 && bits % 16 == opcode % 16
      && Written(opcode, data).msg.content == data && Written(opcode, data).key == []
      && WellFormed(Written(opcode, data)) && |Frame(Written(opcode, data))| <= |Frame(w)|
  {
  }

  // ---------- steps of the reader ----------

  lemma FrameLength(read: Reader, fits: Test, b: seq<byte>)
    requires Meaning(read, fits) && fits(b)
    ensures
      var l := ReadLengths(b);
      && (read(b).Got? <==> 0 < (l.header + l.data) % WORD <= |b|)
      && (read(b).Got? ==> CanCut(b, l) && read(b) == Cut(b, l))
  {
    assert Buffered(b);
    NoHeaderNoData(b);
  }

  // The bytes with the key taken off the payload.
  ghost function Unmasked(b: seq<byte>, header: nat, data: nat): (r: seq<byte>)
    requires 4 <= header && header + data <= |b|
    ensures |r| == |b|
  {
    b[..header] + Masked(b[header..header + data], b[header - 4..header]) + b[header + data..]
  }

  lemma NothingUnmasked(b: seq<byte>, header: nat)
    requires 4 <= header <= |b|
    ensures Unmasked(b, header, 0) == b
  {
    assert b[header..header + 0] == [];
    assert b == b[..header] + [] + b[header..];
  }

  // One more byte of the payload.
  lemma UnmaskedStep(b: seq<byte>, header: nat, i: nat)
    requires 4 <= header && header + i < |b|
    ensures
      var c := Unmasked(b, header, i);
      c[header + i := XorByte(c[header + i], c[header - 4 + i % 4])] == Unmasked(b, header, i + 1)
  {
    var content, key := b[header..header + i + 1], b[header - 4..header];
    assert content[..i] == b[header..header + i] && content[i] == b[header + i];
    assert key[i % 4] == b[header - 4 + i % 4];
    OneMore(b[..header], Masked(content[..i], key), b[header + i..], XorByte(content[i], key[i % 4]));
    assert b[header + i..][1..] == b[header + i + 1..];
  }

  lemma OneMore(x: seq<byte>, y: seq<byte>, z: seq<byte>, v: byte)
    requires z != []
    ensures (x + y + z)[|x| + |y|] == z[0]
    ensures (x + y + z)[|x| + |y| := v] == x + (y + [v]) + z[1..]
    ensures forall k :: 0 <= k < |x| ==> (x + y + z)[k] == x[k]
  {
  }

  lemma CutOf(b: seq<byte>, b': seq<byte>, l: Lengths)
    requires CanCut(b, l) && b' == if l.mask > 0 then Unmasked(b, l.header, l.data) else b
    ensures Cut(b, l) == Got(Message(b'[0], b'[l.header..l.header + l.data]), b'[l.header + l.data..])
  {
    if l.mask > 0 {
      UnmaskedParts(b, l.header, l.data);
    }
  }

  lemma UnmaskedParts(b: seq<byte>, header: nat, data: nat)
    requires 4 <= header && header + data <= |b|
    ensures
      var b' := Unmasked(b, header, data);
      && b'[0] == b[0] && b'[header + data..] == b[header + data..]
      && b'[header..header + data] == Masked(b[header..header + data], b[header - 4..header])
  {
    Parts(b[..header], Masked(b[header..header + data], b[header - 4..header]), b[header + data..]);
  }

  lemma Parts(x: seq<byte>, y: seq<byte>, z: seq<byte>)
    requires x != []
    ensures (x + y + z)[0] == x[0] && (x + y + z)[|x|..|x| + |y|] == y && (x + y + z)[|x| + |y|..] == z
  {
  }
}
