/** Bytes that arrive in chunks: what a reader of frames takes from them does not depend on the cuts. */
module Chunks {
  import opened Basics
  import opened Bytes
  import opened Frames

  // A reader takes a message off the front of the buffered bytes.
  type Reader = seq<byte> -> Next

  type Test = seq<byte> -> bool

  // It shortens the buffer, and what it read stays read when more bytes arrive.
  ghost predicate Sound(read: Reader) {
    && (forall b :: read(b).Got? ==> |read(b).rest| < |b|)
    && (forall a, b {:trigger read(a + b)} :: read(a).Got? ==> read(a + b) == Got(read(a).msg, read(a).rest + b))
  }

  // All messages that can be taken off the front.
  ghost function Drained(read: Reader, b: seq<byte>): seq<Message>
    requires Sound(read)
    decreases |b|
  {
    match read(b)
    case More => []
    case Got(msg, rest) => [msg] + Drained(read, rest)
  }

  // None of the buffers on the way fails the test.
  ghost predicate AllFit(read: Reader, fits: Test, b: seq<byte>)
    requires Sound(read)
    decreases |b|
  {
    fits(b) && (read(b).Got? ==> AllFit(read, fits, read(b).rest))
  }

  // What remains after that.
  ghost function Remainder(read: Reader, b: seq<byte>): seq<byte>
    requires Sound(read)
    decreases |b|
  {
    match read(b)
    case More => b
    case Got(_, rest) => Remainder(read, rest)
  }

  // The messages handed over, and the bytes that remain, when chunks arrive one by one.
  ghost function Fed(read: Reader, buffered: seq<byte>, chunks: seq<seq<byte>>): (seq<Message>, seq<byte>)
    requires Sound(read)
    decreases |chunks|
  {
    if chunks == [] then ([], buffered)
    else
      var b := buffered + chunks[0];
      var (ms, rest) := Fed(read, Remainder(read, b), chunks[1..]);
      (Drained(read, b) + ms, rest)
  }

  // Reading what is there and then the rest is reading all of it.
  lemma {:induction false} DrainExtends(read: Reader, a: seq<byte>, b: seq<byte>)
    requires Sound(read)
    ensures Drained(read, a + b) == Drained(read, a) + Drained(read, Remainder(read, a) + b)
    ensures Remainder(read, a + b) == Remainder(read, Remainder(read, a) + b)
    decreases |a|
  {
    if read(a).Got? {
      assert read(a + b) == Got(read(a).msg, read(a).rest + b);
      DrainExtends(read, read(a).rest, b);
    }
  }

  // How a stream of bytes is cut into chunks makes no difference.
  lemma {:induction false} ChunksDoNotMatter(read: Reader, buffered: seq<byte>, chunks: seq<seq<byte>>)
    requires Sound(read) && read(buffered) == More
    ensures Fed(read, buffered, chunks)
         == (Drained(read, buffered + Concat(chunks)), Remainder(read, buffered + Concat(chunks)))
    decreases |chunks|
  {
    if chunks == [] {
      assert buffered + Concat(chunks) == buffered;
    } else {
      var b, rest := buffered + chunks[0], Concat(chunks[1..]);
      RemainderIsMore(read, b);
      ChunksDoNotMatter(read, Remainder(read, b), chunks[1..]);
      DrainExtends(read, b, rest);
      assert buffered + Concat(chunks) == b + rest;
    }
  }

  lemma {:induction false} RemainderIsMore(read: Reader, b: seq<byte>)
    requires Sound(read)
    ensures read(Remainder(read, b)) == More
    decreases |b|
  {
    if read(b).Got? {
      RemainderIsMore(read, read(b).rest);
    }
  }

  // ---------- byte strings put together ----------

  // How many of the pieces lie within the first n bytes.
  ghost function Whole(pieces: seq<seq<byte>>, n: nat): (k: nat)
    ensures k <= |pieces|
  {
    if pieces == [] || n < |pieces[0]| then 0 else 1 + Whole(pieces[1..], n - |pieces[0]|)
  }

  // What may be left of some first bytes after k whole pieces.
  ghost predicate BeginsNext(pieces: seq<seq<byte>>, k: nat, rest: seq<byte>) {
    k <= |pieces| && if k == |pieces| then rest == [] else rest < pieces[k]
  }

  // The first bytes are some whole pieces and a strict prefix of the next.
  lemma {:induction false} CutPieces(pieces: seq<seq<byte>>, b: seq<byte>) returns (rest: seq<byte>)
    requires b <= Concat(pieces)
    ensures
      var k := Whole(pieces, |b|);
      BeginsNext(pieces, k, rest) && b == Concat(pieces[..k]) + rest
    decreases |pieces|
  {
    if pieces == [] || |b| < |pieces[0]| {
      WithinFirst(pieces, b);
      rest := b;
    } else {
      var after := AfterPiece(pieces[0], Concat(pieces[1..]), b);
      rest := CutPieces(pieces[1..], after);
      OnePieceMore(pieces, Whole(pieces[1..], |after|), after, rest);
    }
  }

  lemma WithinFirst(pieces: seq<seq<byte>>, b: seq<byte>)
    requires b <= Concat(pieces) && (pieces == [] || |b| < |pieces[0]|)
    ensures BeginsNext(pieces, 0, b) && b == Concat(pieces[..0]) + b
  {
    assert pieces != [] ==> b == Concat(pieces)[..|b|] == pieces[0][..|b|];
    assert pieces[..0] == [] && [] + b == b;
  }

  lemma OnePieceMore(pieces: seq<seq<byte>>, k: nat, after: seq<byte>, rest: seq<byte>)
    requires pieces != [] && k < |pieces| && after == Concat(pieces[1..][..k]) + rest
             && BeginsNext(pieces[1..], k, rest)
    ensures pieces[0] + after == Concat(pieces[..k + 1]) + rest && BeginsNext(pieces, k + 1, rest)
  {
    assert pieces[..k + 1][1..] == pieces[1..][..k];
    Associative(pieces[0], Concat(pieces[1..][..k]), rest);
  }

  lemma AfterPiece(piece: seq<byte>, others: seq<byte>, b: seq<byte>) returns (after: seq<byte>)
    requires b <= piece + others && |piece| <= |b|
    ensures b == piece + after && after <= others
  {
    assert b == (piece + others)[..|b|];
    after := b[|piece|..];
  }

  lemma {:induction false} WholeAll(pieces: seq<seq<byte>>)
    ensures Whole(pieces, |Concat(pieces)|) == |pieces|
  {
    if pieces != [] {
      WholeAll(pieces[1..]);
    }
  }

  lemma {:induction false} ConcatSplit(pieces: seq<seq<byte>>, k: nat)
    requires k <= |pieces|
    ensures Concat(pieces) == Concat(pieces[..k]) + Concat(pieces[k..])
    decreases k
  {
    if k == 0 {
      assert pieces[..0] == [] && pieces[0..] == pieces && [] + Concat(pieces) == Concat(pieces);
    } else {
      ConcatSplit(pieces[1..], k - 1);
      assert pieces[..k][1..] == pieces[1..][..k - 1] && pieces[1..][k - 1..] == pieces[k..];
      Associative(pieces[0], Concat(pieces[1..][..k - 1]), Concat(pieces[k..]));
    }
  }

  // ---------- streams of frames ----------

  // Some of the bytes of a frame.
  ghost predicate Partial(w: Wire, b: seq<byte>) {
    WellFormed(w) && b < Frame(w)
  }

  // The reader reads each frame as its message, and no strict prefix of a frame.
  ghost predicate ReadsFrames(read: Reader) {
    && Sound(read) && read([]) == More
    && (forall w, rest {:trigger read(Frame(w) + rest)} :: WellFormed(w) ==> read(Frame(w) + rest) == Got(w.msg, rest))
    && (forall w, b {:trigger Partial(w, b)} :: Partial(w, b) ==> read(b) == More)
  }

  // Of the bytes b of a stream of frames, exactly the messages of the whole frames were handed over, in order, and what
  // remains are the other bytes: a strict prefix of the next frame, or nothing after the last.
  ghost predicate HandedOver(ws: seq<Wire>, b: seq<byte>, ms: seq<Message>, rest: seq<byte>)
    requires AllWellFormed(ws)
  {
    var frames := FramesOf(ws);
    var k := Whole(frames, |b|);
    ms == Messages(ws)[..k] && BeginsNext(frames, k, rest) && b == Concat(frames[..k]) + rest
  }

  // At the end of the stream all messages were handed over.
  lemma AllHandedOver(ws: seq<Wire>, ms: seq<Message>, rest: seq<byte>)
    requires AllWellFormed(ws) && HandedOver(ws, Stream(ws), ms, rest)
    ensures ms == Messages(ws) && rest == []
  {
    WholeAll(FramesOf(ws));
    assert Messages(ws)[..|ws|] == Messages(ws);
  }

  // At its beginning there is nothing to hand over.
  lemma NothingHandedOver(ws: seq<Wire>)
    requires AllWellFormed(ws)
    ensures HandedOver(ws, [], [], [])
  {
    assert ws != [] ==> |FramesOf(ws)[0]| > 0;
    assert FramesOf(ws)[..0] == [];
  }

  // All frames are read, and what follows them remains.
  lemma {:induction false} DrainFrames(read: Reader, ws: seq<Wire>, rest: seq<byte>)
    requires ReadsFrames(read) && AllWellFormed(ws) && read(rest) == More
    ensures Drained(read, Stream(ws) + rest) == Messages(ws) && Remainder(read, Stream(ws) + rest) == rest
    decreases |ws|
  {
    if ws == [] {
      assert [] + rest == rest;
    } else {
      DrainFrames(read, ws[1..], rest);
      FirstFrame(ws, rest);
      assert read(Frame(ws[0]) + (Stream(ws[1..]) + rest)) == Got(ws[0].msg, Stream(ws[1..]) + rest);
    }
  }

  lemma FirstFrame(ws: seq<Wire>, rest: seq<byte>)
    requires AllWellFormed(ws) && ws != []
    ensures Stream(ws) + rest == Frame(ws[0]) + (Stream(ws[1..]) + rest)
  {
    FramesAfter(ws, 1);
    Associative(Frame(ws[0]), Stream(ws[1..]), rest);
  }

  lemma ReceivedBy(read: Reader, ws: seq<Wire>, b: seq<byte>)
    requires ReadsFrames(read) && AllWellFormed(ws) && b <= Stream(ws)
    ensures HandedOver(ws, b, Drained(read, b), Remainder(read, b))
  {
    var rest := CutPieces(FramesOf(ws), b);
    ReceivedPieces(read, ws, b, Whole(FramesOf(ws), |b|), rest);
  }

  lemma ReceivedPieces(read: Reader, ws: seq<Wire>, b: seq<byte>, k: nat, rest: seq<byte>)
    requires ReadsFrames(read) && AllWellFormed(ws) && BeginsNext(FramesOf(ws), k, rest)
    requires b == Concat(FramesOf(ws)[..k]) + rest
    ensures b == Stream(ws[..k]) + rest && read(rest) == More
    ensures Drained(read, b) == Messages(ws)[..k] && Remainder(read, b) == rest
  {
    assert rest == [] || Partial(ws[k], rest);
    FramesBefore(ws, k);
    DrainFrames(read, ws[..k], rest);
    FirstMessages(ws, k);
  }

  lemma {:induction false} FramesBefore(ws: seq<Wire>, k: nat)
    requires AllWellFormed(ws) && k <= |ws|
    ensures FramesOf(ws[..k]) == FramesOf(ws)[..k]
  {
  }

  lemma {:induction false} FirstMessages(ws: seq<Wire>, k: nat)
    requires k <= |ws|
    ensures Messages(ws[..k]) == Messages(ws)[..k]
    decreases k
  {
    if k > 0 {
      FirstMessages(ws[1..], k - 1);
      assert ws[..k][1..] == ws[1..][..k - 1];
    }
  }

  // What a reader hands over of some bytes, and what it keeps, is determined by them.
  lemma HandedOverOnce(read: Reader, ws: seq<Wire>, b: seq<byte>, ms: seq<Message>, rest: seq<byte>)
    requires ReadsFrames(read) && AllWellFormed(ws) && HandedOver(ws, b, ms, rest)
    ensures ms == Drained(read, b) && rest == Remainder(read, b)
  {
    ReceivedPieces(read, ws, b, Whole(FramesOf(ws), |b|), rest);
  }

  // The test passes on each prefix of a stream of frames.
  ghost predicate PassesFrames(fits: Test) {
    && fits([])
    && (forall w, rest {:trigger fits(Frame(w) + rest)} :: WellFormed(w) ==> fits(Frame(w) + rest))
    && (forall w, b {:trigger Partial(w, b)} :: Partial(w, b) ==> fits(b))
  }

  lemma {:induction false} FramesFit(read: Reader, fits: Test, ws: seq<Wire>, rest: seq<byte>)
    requires ReadsFrames(read) && PassesFrames(fits) && AllWellFormed(ws) && read(rest) == More && fits(rest)
    ensures AllFit(read, fits, Stream(ws) + rest)
    decreases |ws|
  {
    if ws == [] {
      assert [] + rest == rest;
    } else {
      var more := Stream(ws[1..]) + rest;
      FramesFit(read, fits, ws[1..], rest);
      FirstFrame(ws, rest);
      assert fits(Frame(ws[0]) + more) && read(Frame(ws[0]) + more) == Got(ws[0].msg, more);
    }
  }

  lemma StreamFits(read: Reader, fits: Test, ws: seq<Wire>, b: seq<byte>)
    requires ReadsFrames(read) && PassesFrames(fits) && AllWellFormed(ws) && b <= Stream(ws)
    ensures AllFit(read, fits, b)
  {
    var rest := CutPieces(FramesOf(ws), b);
    var k := Whole(FramesOf(ws), |b|);
    ReceivedPieces(read, ws, b, k, rest);
    assert rest == [] || Partial(ws[k], rest);
    FramesFit(read, fits, ws[..k], rest);
  }

  // The test also passes on what one chunk leaves, extended by the next.
  lemma NextChunkFits(read: Reader, fits: Test, ws: seq<Wire>, b: seq<byte>, chunk: seq<byte>)
    requires ReadsFrames(read) && PassesFrames(fits) && AllWellFormed(ws) && b + chunk <= Stream(ws)
    ensures AllFit(read, fits, Remainder(read, b) + chunk)
  {
    var frames := FramesOf(ws);
    PrefixOfPrefix(b, chunk, Stream(ws));
    var rest := CutPieces(frames, b);
    var k := Whole(frames, |b|);
    ReceivedPieces(read, ws, b, k, rest);
    ConcatSplit(frames, k);
    FramesAfter(ws, k);
    SameFront(Concat(frames[..k]), rest, chunk, Stream(ws[k..]));
    StreamFits(read, fits, ws[k..], rest + chunk);
  }

  lemma FramesAfter(ws: seq<Wire>, k: nat)
    requires AllWellFormed(ws) && k <= |ws|
    ensures FramesOf(ws[k..]) == FramesOf(ws)[k..]
  {
  }

  lemma PrefixOfPrefix(a: seq<byte>, b: seq<byte>, whole: seq<byte>)
    requires a + b <= whole
    ensures a <= whole
  {
    assert a == (a + b)[..|a|] == whole[..|a|];
  }

  lemma SameFront(x: seq<byte>, a: seq<byte>, b: seq<byte>, y: seq<byte>)
    requires x + a + b <= x + y
    ensures a + b <= y
  {
    assert (x + a + b)[|x|..] == a + b && (x + y)[|x|..] == y;
  }
}
