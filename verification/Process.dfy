/**
 Stream processing: the loop that looks for frames in a byte buffer, resynchronises after
 errors, and dispatches the messages it finds.
 */
module Process {
  import opened Options
  import opened IdTuples
  import opened DispatchChoice
  import Polymorphic
  import opened Bytes

  datatype ErrorStatus =
    | Success
    | UpdateRequired
    | NotEnoughData
    | ProtocolError
    | BufferOverflow
    | InvalidMsgId
    | InvalidMsgData
    | MsgAllocFailure
    | NotSupported

  /** What one attempt of the frame to read a message reports: how far the iterator was
      advanced, and for a message its ID and its index among the types with this ID. */
  datatype ReadResult = ReadResult(status: ErrorStatus, advanced: nat, id: MsgId, index: nat)

  /** The frame, tried on all the bytes that are left. */
  type Frame = seq<byte> -> ReadResult

  /** The attempt ended: neither more data is needed nor a byte has to be skipped. */
  predicate Completed(status: ErrorStatus) {
    status != NotEnoughData && status != ProtocolError
  }

  /** The frame does not advance the iterator beyond the data. */
  ghost predicate StaysInside(frame: Frame) {
    forall data: seq<byte> :: frame(data).advanced <= |data|
  }

  /** The frame completes a read without consuming anything. */
  predicate Idles(frame: Frame, data: seq<byte>) {
    data != [] && Completed(frame(data).status) && frame(data).advanced == 0
  }

  /** Once the frame has enough data, bytes that arrive later do not change its answer. */
  ghost predicate Stable(frame: Frame) {
    forall data: seq<byte>, more: seq<byte> ::
      frame(data).status != NotEnoughData ==> frame(data + more) == frame(data)
  }

  // ---- Reference: the buffer as a sequence of pieces -------------------------------------

  /** The consumed bytes come in pieces: a single byte that was skipped, or a completed read. */
  datatype Piece = Skipped | Read(result: ReadResult) {
    function Length(): nat {
      match this
      case Skipped => 1
      case Read(result) => result.advanced
    }
  }

  function TotalLength(pieces: seq<Piece>): nat {
    if pieces == [] then 0 else pieces[0].Length() + TotalLength(pieces[1..])
  }

  /** The piece is what the frame reports at the start of the data. */
  ghost predicate Reported(frame: Frame, data: seq<byte>, piece: Piece) {
    && data != []
    && piece.Length() <= |data|
    && match piece
       case Skipped => frame(data).status == ProtocolError
       case Read(result) => result == frame(data) && Completed(result.status)
  }

  /** The pieces lie one after the other at the front of the data, each one reported where it
      starts. */
  ghost predicate Takes(frame: Frame, data: seq<byte>, pieces: seq<Piece>)
    ensures Takes(frame, data, pieces) ==> TotalLength(pieces) <= |data|
    decreases |pieces|
  {
    pieces == []
    || (Reported(frame, data, pieces[0]) && Takes(frame, data[pieces[0].Length()..], pieces[1..]))
  }

  /** The frame gets no further without more data. */
  ghost predicate Stuck(frame: Frame, data: seq<byte>) {
    data == [] || frame(data).status == NotEnoughData
  }

  /** The pieces are all the pieces of the buffer. */
  ghost predicate IsPartition(frame: Frame, data: seq<byte>, pieces: seq<Piece>) {
    Takes(frame, data, pieces) && Stuck(frame, data[TotalLength(pieces)..])
  }

  /** A message found in the buffer. */
  datatype Found = Found(id: MsgId, index: nat)

  /** Only a successful read delivers a message. */
  function Delivered(piece: Piece): seq<Found> {
    if piece.Read? && piece.result.status == Success then [Found(piece.result.id, piece.result.index)] else []
  }

  /** The messages of the successful reads, in order. */
  function Messages(pieces: seq<Piece>): seq<Found> {
    if pieces == [] then [] else Delivered(pieces[0]) + Messages(pieces[1..])
  }

  lemma {:induction false} PiecesConcat(p: seq<Piece>, q: seq<Piece>)
    ensures TotalLength(p + q) == TotalLength(p) + TotalLength(q)
    ensures Messages(p + q) == Messages(p) + Messages(q)
  {
    if p == [] {
      assert p + q == q;
    } else {
      assert (p + q)[0] == p[0] && (p + q)[1..] == p[1..] + q;
      PiecesConcat(p[1..], q);
      hide Delivered;
      assert Delivered(p[0]) + (Messages(p[1..]) + Messages(q)) == Messages(p) + Messages(q);
    }
  }

  /** Taking first `p` and then `q` is taking `p + q`. */
  lemma {:induction false} TakesConcat(frame: Frame, data: seq<byte>, p: seq<Piece>, q: seq<Piece>)
    requires Takes(frame, data, p)
    ensures Takes(frame, data[TotalLength(p)..], q) <==> Takes(frame, data, p + q)
    decreases |p|
  {
    if p == [] {
      assert p + q == q && data[0..] == data;
    } else {
      var rest := data[p[0].Length()..];
      TakesConcat(frame, rest, p[1..], q);
      assert (p + q)[1..] == p[1..] + q;
      assert rest[TotalLength(p[1..])..] == data[TotalLength(p)..];
    }
  }

  lemma EmptyTakes(frame: Frame, data: seq<byte>)
    ensures Takes(frame, data, []) && Messages([]) == [] && TotalLength([]) == 0 && AllSkipped([])
  {}

  lemma TakesOneMore(frame: Frame, data: seq<byte>, pieces: seq<Piece>, piece: Piece)
    requires Takes(frame, data, pieces) && Reported(frame, data[TotalLength(pieces)..], piece)
    ensures Takes(frame, data, pieces + [piece])
    ensures TotalLength(pieces + [piece]) == TotalLength(pieces) + piece.Length()
    ensures Messages(pieces + [piece]) == Messages(pieces) + Delivered(piece)
  {
    TakesConcat(frame, data, pieces, [piece]);
    PiecesConcat(pieces, [piece]);
  }

  /** The front piece of a buffer, unless the frame gets no further there. */
  function FrontPiece(frame: Frame, data: seq<byte>): Piece {
    if frame(data).status == ProtocolError then Skipped else Read(frame(data))
  }

  /** The frame gets no further, because it needs more data or because it idles. */
  ghost predicate Halts(frame: Frame, data: seq<byte>) {
    Stuck(frame, data) || Idles(frame, data)
  }

  /** The pieces of a buffer, as far as the frame gets: to where it needs more data, or completes
      a read without consuming anything. */
  ghost function Partition(frame: Frame, data: seq<byte>): (pieces: seq<Piece>)
    requires StaysInside(frame)
    ensures Takes(frame, data, pieces)
    decreases |data|
  {
    if Halts(frame, data) then []
    else
      var piece := FrontPiece(frame, data);
      [piece] + Partition(frame, data[piece.Length()..])
  }

  /** One piece, and then the partition of the rest. */
  lemma FirstPiece(frame: Frame, data: seq<byte>)
    requires StaysInside(frame) && !Halts(frame, data)
    ensures var piece := FrontPiece(frame, data);
            && 0 < piece.Length() <= |data|
            && var rest := Partition(frame, data[piece.Length()..]);
               && Partition(frame, data) == [piece] + rest
               && TotalLength(Partition(frame, data)) == piece.Length() + TotalLength(rest)
               && data[piece.Length()..][TotalLength(rest)..] == data[TotalLength(Partition(frame, data))..]
  {
    var piece := FrontPiece(frame, data);
    var rest := Partition(frame, data[piece.Length()..]);
    assert ([piece] + rest)[0] == piece && ([piece] + rest)[1..] == rest;
  }

  /** The partition goes as far as the frame gets. */
  lemma {:induction false} PartitionHalts(frame: Frame, data: seq<byte>)
    requires StaysInside(frame)
    ensures Halts(frame, data[TotalLength(Partition(frame, data))..])
    decreases |data|
  {
    hide Takes, Halts, StaysInside;
    if Halts(frame, data) {
      NothingTaken(frame, data);
      assert data[0..] == data;
    } else {
      FirstPiece(frame, data);
      PartitionHalts(frame, data[FrontPiece(frame, data).Length()..]);
    }
  }

  lemma NothingTaken(frame: Frame, data: seq<byte>)
    requires StaysInside(frame) && Halts(frame, data)
    ensures Partition(frame, data) == [] && TotalLength([]) == 0
  {}

  /** There is only one partition. */
  lemma {:induction false} PartitionUnique(frame: Frame, data: seq<byte>, p: seq<Piece>, q: seq<Piece>)
    requires IsPartition(frame, data, p) && IsPartition(frame, data, q)
    ensures p == q
    decreases |p|
  {
    assert data[0..] == data;
    if p != [] && q != [] {
      assert p[0] == q[0];
      var len := p[0].Length();
      assert data[len..][TotalLength(p[1..])..] == data[TotalLength(p)..];
      assert data[len..][TotalLength(q[1..])..] == data[TotalLength(q)..];
      PartitionUnique(frame, data[len..], p[1..], q[1..]);
      assert p == [p[0]] + p[1..] && q == [q[0]] + q[1..];
    }
  }

  // ---- When the processing ends ---------------------------------------------------------------

  /** After these pieces the frame completes a read without consuming anything. */
  ghost predicate IdlesAfter(frame: Frame, data: seq<byte>, pieces: seq<Piece>) {
    Takes(frame, data, pieces) && Idles(frame, data[TotalLength(pieces)..])
  }

  /** Wherever the frame gets to in this buffer, a completed read consumes something. */
  ghost predicate NeverIdles(frame: Frame, data: seq<byte>) {
    forall pieces :: !IdlesAfter(frame, data, pieces)
  }

  /** A buffer with a partition has no place where the frame idles. */
  lemma {:induction false} PartitionNeverIdles(frame: Frame, data: seq<byte>, pieces: seq<Piece>, p: seq<Piece>)
    requires IsPartition(frame, data, pieces)
    ensures !IdlesAfter(frame, data, p)
    decreases |p| + |pieces|
  {
    if IdlesAfter(frame, data, p) {
      assert data[0..] == data;
      assert pieces != [];
      var len := pieces[0].Length();
      assert data[len..][TotalLength(pieces[1..])..] == data[TotalLength(pieces)..];
      if p == [] {
        PartitionNeverIdles(frame, data[len..], pieces[1..], []);
      } else {
        assert p[0] == pieces[0];
        assert data[len..][TotalLength(p[1..])..] == data[TotalLength(p)..];
        PartitionNeverIdles(frame, data[len..], pieces[1..], p[1..]);
      }
    }
  }

  /** A buffer is partitioned, and its processing ends, exactly when the frame never idles in it. */
  lemma EndsExactly(frame: Frame, data: seq<byte>)
    requires StaysInside(frame)
    ensures (exists pieces :: IsPartition(frame, data, pieces)) <==> NeverIdles(frame, data)
  {
    if pieces :| IsPartition(frame, data, pieces) {
      forall p
        ensures !IdlesAfter(frame, data, p)
      {
        PartitionNeverIdles(frame, data, pieces, p);
      }
    }
    if NeverIdles(frame, data) {
      var pieces := Partition(frame, data);
      PartitionHalts(frame, data);
      assert !IdlesAfter(frame, data, pieces);
      assert IsPartition(frame, data, pieces);
    }
  }

  /** Where the frame idles, the loop tries again for ever: it takes any number of further
      pieces, and none of them consumes a byte. */
  lemma {:induction false} IdlesForEver(frame: Frame, data: seq<byte>, p: seq<Piece>, n: nat)
    returns (pieces: seq<Piece>)
    requires IdlesAfter(frame, data, p)
    ensures |pieces| == |p| + n && pieces[..|p|] == p
    ensures TotalLength(pieces) == TotalLength(p)
    ensures IdlesAfter(frame, data, pieces)
  {
    pieces := p;
    if 0 < n {
      var before := IdlesForEver(frame, data, p, n - 1);
      pieces := before + [Read(frame(data[TotalLength(before)..]))];
      TakesOneMore(frame, data, before, pieces[|before|]);
    }
  }

  /** A frame that refuses every message without looking at its bytes. */
  function RefusingFrame(): Frame {
    (data: seq<byte>) => ReadResult(InvalidMsgId, 0, 0, 0)
  }

  /** The processing of a single byte with it does not end. */
  lemma RefusedForEver()
    ensures StaysInside(RefusingFrame()) && Stable(RefusingFrame())
    ensures !exists pieces :: IsPartition(RefusingFrame(), [0], pieces)
  {
    EndsExactly(RefusingFrame(), [0]);
    assert [0 as byte][0..] == [0];
    assert IdlesAfter(RefusingFrame(), [0], []);
  }

  /** A frame that never idles in a buffer does not idle in the rest of it. */
  lemma NeverIdlesLater(frame: Frame, data: seq<byte>, pieces: seq<Piece>)
    requires Takes(frame, data, pieces) && NeverIdles(frame, data)
    ensures NeverIdles(frame, data[TotalLength(pieces)..])
  {
    hide Takes, TotalLength, IdlesAfter;
    var left := data[TotalLength(pieces)..];
    forall p
      ensures !IdlesAfter(frame, left, p)
    {
      if IdlesAfter(frame, left, p) {
        IdlesAfterBoth(frame, data, pieces, p);
      }
    }
  }

  lemma IdlesAfterBoth(frame: Frame, data: seq<byte>, p: seq<Piece>, q: seq<Piece>)
    requires Takes(frame, data, p) && IdlesAfter(frame, data[TotalLength(p)..], q)
    ensures IdlesAfter(frame, data, p + q)
  {
    hide Takes, TotalLength, Idles;
    TakesConcat(frame, data, p, q);
    PiecesConcat(p, q);
    assert data[TotalLength(p)..][TotalLength(q)..] == data[TotalLength(p + q)..];
  }

  /** Nor in the front part of it. */
  lemma NeverIdlesBefore(frame: Frame, data: seq<byte>, more: seq<byte>)
    requires Stable(frame) && NeverIdles(frame, data + more)
    ensures NeverIdles(frame, data)
  {
    hide Takes, TotalLength, IdlesAfter, Stable;
    forall p
      ensures !IdlesAfter(frame, data, p)
    {
      if IdlesAfter(frame, data, p) {
        IdlesMore(frame, data, more, p);
      }
    }
  }

  /** Where the frame idles, it also does so when more bytes have arrived. */
  lemma IdlesMore(frame: Frame, data: seq<byte>, more: seq<byte>, p: seq<Piece>)
    requires Stable(frame) && IdlesAfter(frame, data, p)
    ensures IdlesAfter(frame, data + more, p)
  {
    hide Takes, TotalLength;
    TakesMore(frame, data, more, p);
    assert (data + more)[TotalLength(p)..] == data[TotalLength(p)..] + more;
  }

  // ---- Chunked input -----------------------------------------------------------------------

  /** What was taken from the bytes so far is also taken when more bytes have arrived. */
  lemma {:induction false} TakesMore(frame: Frame, data: seq<byte>, more: seq<byte>, pieces: seq<Piece>)
    requires Stable(frame) && Takes(frame, data, pieces)
    ensures Takes(frame, data + more, pieces)
    decreases |pieces|
  {
    if pieces != [] {
      var len := pieces[0].Length();
      assert frame(data + more) == frame(data);
      assert (data + more)[len..] == data[len..] + more;
      TakesMore(frame, data[len..], more, pieces[1..]);
    }
  }

  /** All the chunks one after the other. */
  function Joined(chunks: seq<seq<byte>>): seq<byte> {
    if chunks == [] then [] else chunks[0] + Joined(chunks[1..])
  }

  /** The pieces found when the chunks arrive one by one: each buffer is what the one before it
      left over, followed by the next chunk. */
  ghost function ChunkedPieces(frame: Frame, kept: seq<byte>, chunks: seq<seq<byte>>): seq<Piece>
    requires StaysInside(frame)
    decreases |chunks|
  {
    if chunks == [] then []
    else
      var pieces := Partition(frame, kept + chunks[0]);
      pieces + ChunkedPieces(frame, (kept + chunks[0])[TotalLength(pieces)..], chunks[1..])
  }

  /** The bytes that are kept after the last chunk. */
  ghost function ChunkedKept(frame: Frame, kept: seq<byte>, chunks: seq<seq<byte>>): seq<byte>
    requires StaysInside(frame)
    decreases |chunks|
  {
    if chunks == [] then kept
    else
      var pieces := Partition(frame, kept + chunks[0]);
      ChunkedKept(frame, (kept + chunks[0])[TotalLength(pieces)..], chunks[1..])
  }

  /** The data taken apart in two steps: first what has arrived, and later what was left with
      what has arrived since. */
  ghost predicate Resumes(frame: Frame, data: seq<byte>, more: seq<byte>)
    requires StaysInside(frame)
  {
    var first := Partition(frame, data);
    var left := data[TotalLength(first)..] + more;
    var rest := Partition(frame, left);
    && Partition(frame, data + more) == first + rest
    && left[TotalLength(rest)..] == (data + more)[TotalLength(Partition(frame, data + more))..]
  }

  /** Taking it apart in two steps takes apart the whole. */
  lemma {:induction false} ResumeAfterMore(frame: Frame, data: seq<byte>, more: seq<byte>)
    requires Stable(frame) && StaysInside(frame)
    ensures Resumes(frame, data, more)
    decreases |data|
  {
    if Halts(frame, data) {
      NothingTaken(frame, data);
      hide Partition, Takes, Stable, StaysInside, Halts;
      assert data[0..] + more == data + more;
      assert [] + Partition(frame, data + more) == Partition(frame, data + more);
    } else {
      FirstPiece(frame, data);
      ResumeAfterMore(frame, data[FrontPiece(frame, data).Length()..], more);
      ResumeBehind(frame, data, more);
    }
  }

  lemma ResumeBehind(frame: Frame, data: seq<byte>, more: seq<byte>)
    requires Stable(frame) && StaysInside(frame) && !Halts(frame, data)
    requires FrontPiece(frame, data).Length() <= |data|
    requires Resumes(frame, data[FrontPiece(frame, data).Length()..], more)
    ensures Resumes(frame, data, more)
  {
    hide Partition, Takes, Stable, StaysInside, TotalLength, FrontPiece, Halts, Piece.Length;
    var piece := FrontPiece(frame, data);
    var next := data[piece.Length()..];
    FirstPiece(frame, data);
    SameWithMore(frame, data, more);
    FirstPiece(frame, data + more);
    assert (data + more)[piece.Length()..] == next + more;
    var left := data[TotalLength(Partition(frame, data))..] + more;
    assert Partition(frame, data + more) == [piece] + (Partition(frame, next) + Partition(frame, left));
  }

  lemma SameWithMore(frame: Frame, data: seq<byte>, more: seq<byte>)
    requires Stable(frame) && !Halts(frame, data)
    ensures !Halts(frame, data + more) && FrontPiece(frame, data + more) == FrontPiece(frame, data)
  {}

  /** Chunk invariance: however the input is cut into chunks, the pieces found are those of
      the whole input processed at once; hence the same messages are delivered in the same
      order, the same number of bytes is consumed, and the same bytes are kept. */
  lemma {:induction false} ChunkInvariance(frame: Frame, kept: seq<byte>, chunks: seq<seq<byte>>)
    requires Stable(frame) && StaysInside(frame)
    requires Halts(frame, kept)
    ensures var whole := kept + Joined(chunks);
            && ChunkedPieces(frame, kept, chunks) == Partition(frame, whole)
            && ChunkedKept(frame, kept, chunks) == whole[TotalLength(Partition(frame, whole))..]
    decreases |chunks|
  {
    hide Partition, Takes, Stable, StaysInside, TotalLength, Halts;
    if chunks == [] {
      assert kept + [] == kept;
      NothingTaken(frame, kept);
    } else {
      var buffer, later := kept + chunks[0], Joined(chunks[1..]);
      PartitionHalts(frame, buffer);
      ChunkInvariance(frame, buffer[TotalLength(Partition(frame, buffer))..], chunks[1..]);
      ResumeAfterMore(frame, buffer, later);
      assert buffer + later == kept + Joined(chunks);
    }
  }

  // ---- The code -------------------------------------------------------------------------------

  /** Unless the frame needs more data, the next piece can be taken. */
  lemma TakeNext(frame: Frame, data: seq<byte>, pieces: seq<Piece>) returns (next: seq<Piece>)
    requires StaysInside(frame) && Takes(frame, data, pieces)
    requires var left := data[TotalLength(pieces)..]; left != [] && frame(left).status != NotEnoughData
    ensures var left := data[TotalLength(pieces)..];
            var read := frame(left);
            var skip := read.status == ProtocolError;
            && next == pieces + [FrontPiece(frame, left)]
            && Takes(frame, data, next)
            && TotalLength(next) == TotalLength(pieces) + (if skip then 1 else read.advanced)
            && Messages(next) == Messages(pieces) +
               if read.status == Success then [Found(read.id, read.index)] else []
  {
    var left := data[TotalLength(pieces)..];
    var piece := FrontPiece(frame, left);
    next := pieces + [piece];
    TakesOneMore(frame, data, pieces, piece);
  }

  ghost predicate AllSkipped(pieces: seq<Piece>) {
    forall k :: 0 <= k < |pieces| ==> pieces[k].Skipped?
  }

  /** Bytes are skipped up to the first read that completes, which is the one reported. */
  ghost predicate IsSingle(pieces: seq<Piece>, es: ErrorStatus, id: MsgId, index: nat) {
    if es == NotEnoughData then AllSkipped(pieces)
    else
      && pieces != []
      && AllSkipped(pieces[..|pieces| - 1])
      && var last := pieces[|pieces| - 1];
         last.Read? && last.result.status == es && last.result.id == id && last.result.index == index
  }

  lemma EndsStuck(frame: Frame, data: seq<byte>, skipped: seq<Piece>)
    requires Takes(frame, data, skipped) && AllSkipped(skipped)
    requires var left := data[TotalLength(skipped)..]; left == [] || frame(left).status == NotEnoughData
    ensures Stuck(frame, data[TotalLength(skipped)..])
    ensures IsSingle(skipped, NotEnoughData, 0, 0)
  {}

  lemma EndsSingle(frame: Frame, data: seq<byte>, skipped: seq<Piece>)
    requires Takes(frame, data, skipped) && AllSkipped(skipped)
    requires var left := data[TotalLength(skipped)..]; left != [] && Completed(frame(left).status)
    ensures var read := frame(data[TotalLength(skipped)..]);
            && IsSingle(skipped + [Read(read)], read.status, read.id, read.index)
            && (0 < TotalLength(skipped) + read.advanced || Idles(frame, data))
  {
    if skipped == [] {
      assert data[0..] == data;
    }
  }

  lemma SkipsOneMore(pieces: seq<Piece>)
    requires AllSkipped(pieces)
    ensures AllSkipped(pieces + [Skipped])
  {}

  /** One message: skip bytes while the frame reports a protocol error, until a read completes
      or more data is needed. The caller's iterator is advanced by what was consumed, on every
      way out. */
  method ProcessSingle(buf: seq<byte>, start: nat, len: nat, frame: Frame)
    returns (bufIter: nat, es: ErrorStatus, id: MsgId, index: nat, ghost pieces: seq<Piece>)
    requires start + len <= |buf|
    requires StaysInside(frame)
    ensures start <= bufIter <= start + len && bufIter - start == TotalLength(pieces)
    ensures Takes(frame, buf[start..start + len], pieces)
    ensures es == NotEnoughData ==> Stuck(frame, buf[bufIter..start + len])
    ensures es != ProtocolError
    ensures es != NotEnoughData ==> start < bufIter || Idles(frame, buf[start..start + len])
    ensures IsSingle(pieces, es, id, index)
    ensures Messages(pieces) == if es == Success then [Found(id, index)] else []
  {
    hide Takes, Messages, TotalLength, Reported, IsSingle, AllSkipped, Idles, Stuck;
    id, index, pieces := 0, 0, [];
    ghost var data := buf[start..start + len];
    var consumed := 0;
    EmptyTakes(frame, data);
    while consumed < len
      invariant consumed <= len
      invariant TotalLength(pieces) == consumed && Messages(pieces) == []
      invariant Takes(frame, data, pieces) && AllSkipped(pieces)
    {
      var begin := start + consumed;
      assert data[consumed..] == buf[begin..start + len];
      var read := frame(buf[begin..start + len]);
      if read.status == NotEnoughData {
        EndsStuck(frame, data, pieces);
        return begin, NotEnoughData, 0, 0, pieces;
      }
      ghost var next := TakeNext(frame, data, pieces);
      if read.status == ProtocolError {
        SkipsOneMore(pieces);
        consumed := consumed + 1;
      } else {
        consumed := consumed + read.advanced;
        EndsSingle(frame, data, pieces);
        return start + consumed, read.status, read.id, read.index, next;
      }
      pieces := next;
    }
    assert data[consumed..] == buf[start + consumed..start + len] == [];
    EndsStuck(frame, data, pieces);
    return start + consumed, NotEnoughData, 0, 0, pieces;
  }

  /** The message that was found, and what the dispatcher selected for it: the `handle()`
      function of a message type, or the default one. */
  datatype HandlerCall = HandlerCall(message: Found, selected: Option<nat>)

  /** The calls made for a sequence of messages. */
  function Calls(strategy: Strategy, ids: IdTuple, registry: seq<Option<nat>>, messages: seq<Found>): seq<HandlerCall>
    requires WeakSorted(ids)
  {
    seq(|messages|, k requires 0 <= k < |messages| =>
      HandlerCall(messages[k], DispatchMsg(strategy, ids, registry, messages[k].id, messages[k].index)))
  }

  lemma CallsConcat(
      strategy: Strategy, ids: IdTuple, registry: seq<Option<nat>>, first: seq<Found>, second: seq<Found>)
    requires WeakSorted(ids)
    ensures Calls(strategy, ids, registry, first + second)
         == Calls(strategy, ids, registry, first) + Calls(strategy, ids, registry, second)
  {}

  lemma NoCalls(strategy: Strategy, ids: IdTuple, registry: seq<Option<nat>>)
    requires WeakSorted(ids)
    ensures Calls(strategy, ids, registry, []) == []
  {}

  lemma OneCall(strategy: Strategy, ids: IdTuple, registry: seq<Option<nat>>, found: Found)
    requires WeakSorted(ids)
    ensures Calls(strategy, ids, registry, [found])
         == [HandlerCall(found, DispatchMsg(strategy, ids, registry, found.id, found.index))]
  {}

  /** One message, dispatched to its handler if it was read successfully. */
  method ProcessSingleWithDispatch(
      buf: seq<byte>, start: nat, len: nat, frame: Frame,
      strategy: Strategy, ids: IdTuple, registry: seq<Option<nat>>)
    returns (bufIter: nat, es: ErrorStatus, calls: seq<HandlerCall>, ghost pieces: seq<Piece>)
    requires start + len <= |buf|
    requires StaysInside(frame)
    requires WeakSorted(ids)
    ensures start <= bufIter <= start + len && bufIter - start == TotalLength(pieces)
    ensures Takes(frame, buf[start..start + len], pieces)
    ensures es == NotEnoughData ==> Stuck(frame, buf[bufIter..start + len])
    ensures es != NotEnoughData ==> start < bufIter || Idles(frame, buf[start..start + len])
    ensures es != ProtocolError
    ensures calls == Calls(strategy, ids, registry, Messages(pieces))
    ensures |calls| == if es == Success then 1 else 0
    ensures exists id, index :: IsSingle(pieces, es, id, index)
  {
    hide *;
    var id, index;
    bufIter, es, id, index, pieces := ProcessSingle(buf, start, len, frame);
    if es != Success {
      NoCalls(strategy, ids, registry);
      return bufIter, es, [], pieces;
    }
    calls := [HandlerCall(Found(id, index), DispatchMsg(strategy, ids, registry, id, index))];
    OneCall(strategy, ids, registry, Found(id, index));
  }

  /** All the messages in the buffer. With a frame that does not idle in it the nested loops
      terminate; the consumed bytes are exactly the partition of the buffer, and the handler is
      called once for every successful read in it, in order. */
  method ProcessAllWithDispatch(
      buf: seq<byte>, len: nat, frame: Frame,
      strategy: Strategy, ids: IdTuple, registry: seq<Option<nat>>)
    returns (consumed: nat, calls: seq<HandlerCall>)
    requires len <= |buf|
    requires StaysInside(frame) && NeverIdles(frame, buf[..len])
    requires WeakSorted(ids)
    ensures consumed <= len
    ensures consumed == TotalLength(Partition(frame, buf[..len]))
    ensures calls == Calls(strategy, ids, registry, Messages(Partition(frame, buf[..len])))
  {
    hide *;
    consumed, calls := 0, [];
    ghost var data, pieces := buf[..len], [];
    EmptyTakes(frame, data);
    NoCalls(strategy, ids, registry);
    while consumed < len
      invariant consumed == TotalLength(pieces) <= len
      invariant Takes(frame, data, pieces)
      invariant calls == Calls(strategy, ids, registry, Messages(pieces))
      decreases len - consumed
    {
      var iter, es, newCalls; ghost var newPieces;
      iter, es, newCalls, newPieces :=
        ProcessSingleWithDispatch(buf, consumed, len - consumed, frame, strategy, ids, registry);
      assert data[consumed..] == buf[consumed..consumed + (len - consumed)];
      assert !Idles(frame, data[consumed..]) by {
        NotIdleAfter(frame, data, pieces);
      }
      TakesConcat(frame, data, pieces, newPieces);
      PiecesConcat(pieces, newPieces);
      CallsConcat(strategy, ids, registry, Messages(pieces), Messages(newPieces));
      pieces, calls := pieces + newPieces, calls + newCalls;
      consumed := iter;
      if es == NotEnoughData {
        assert data[consumed..] == buf[consumed..len];
        TakesAll(frame, data, pieces);
        return;
      }
    }
    assert data[consumed..] == [];
    TakesAll(frame, data, pieces);
  }

  lemma NotIdleAfter(frame: Frame, data: seq<byte>, pieces: seq<Piece>)
    requires NeverIdles(frame, data) && Takes(frame, data, pieces)
    ensures !Idles(frame, data[TotalLength(pieces)..])
  {
    assert !IdlesAfter(frame, data, pieces);
  }

  /** Pieces after which the frame needs more data are the partition. */
  lemma TakesAll(frame: Frame, data: seq<byte>, pieces: seq<Piece>)
    requires StaysInside(frame)
    requires Takes(frame, data, pieces)
    requires data[TotalLength(pieces)..] == [] || Stuck(frame, data[TotalLength(pieces)..])
    ensures pieces == Partition(frame, data)
  {
    PartitionHalts(frame, data);
    PartitionNeverIdles(frame, data, pieces, Partition(frame, data));
    PartitionUnique(frame, data, pieces, Partition(frame, data));
  }

  /** The input arrives in chunks: each one is put behind what was kept, the buffer is processed,
      and the caller removes what was consumed. The handler calls and the kept bytes are those of
      the whole input processed at once. */
  method ProcessChunks(
      chunks: seq<seq<byte>>, frame: Frame, strategy: Strategy, ids: IdTuple, registry: seq<Option<nat>>)
    returns (calls: seq<HandlerCall>, kept: seq<byte>)
    requires Stable(frame) && StaysInside(frame) && NeverIdles(frame, Joined(chunks))
    requires WeakSorted(ids)
    ensures var pieces := Partition(frame, Joined(chunks));
            && calls == Calls(strategy, ids, registry, Messages(pieces))
            && kept == Joined(chunks)[TotalLength(pieces)..]
  {
    hide Takes, Messages, TotalLength, Partition, Calls, NeverIdles, Stable, StaysInside, Joined, WeakSorted;
    calls, kept := [], [];
    NothingArrived(strategy, ids, registry, frame, chunks);
    for k := 0 to |chunks|
      invariant calls == Calls(strategy, ids, registry, Messages(Partition(frame, Joined(chunks[..k]))))
      invariant kept == Joined(chunks[..k])[TotalLength(Partition(frame, Joined(chunks[..k])))..]
    {
      ghost var arrived, first := Joined(chunks[..k]), Partition(frame, Joined(chunks[..k]));
      NextChunk(frame, chunks, k);
      var buf := kept + chunks[k];
      assert buf[..|buf|] == buf;
      var consumed, newCalls := ProcessAllWithDispatch(buf, |buf|, frame, strategy, ids, registry);
      ResumeAfterMore(frame, arrived, chunks[k]);
      PiecesConcat(first, Partition(frame, buf));
      CallsConcat(strategy, ids, registry, Messages(first), Messages(Partition(frame, buf)));
      calls, kept := calls + newCalls, buf[consumed..];
    }
    assert chunks[..|chunks|] == chunks;
  }

  lemma NothingArrived(
      strategy: Strategy, ids: IdTuple, registry: seq<Option<nat>>, frame: Frame, chunks: seq<seq<byte>>)
    requires WeakSorted(ids) && StaysInside(frame)
    ensures Joined(chunks[..0]) == [] && Partition(frame, []) == [] && TotalLength([]) == 0
    ensures Calls(strategy, ids, registry, Messages([])) == []
  {
    NothingTaken(frame, []);
  }

  lemma {:induction false} JoinedNext(chunks: seq<seq<byte>>, k: nat)
    requires k < |chunks|
    ensures Joined(chunks[..k + 1]) == Joined(chunks[..k]) + chunks[k]
    ensures Joined(chunks) == Joined(chunks[..k]) + chunks[k] + Joined(chunks[k + 1..])
    decreases k
  {
    if k == 0 {
      assert chunks[..1] == [chunks[0]] && chunks[0..] == chunks;
      assert Joined([chunks[0]]) == chunks[0] + Joined([]);
    } else {
      JoinedNext(chunks[1..], k - 1);
      assert chunks[..k + 1][1..] == chunks[1..][..k] && chunks[..k][1..] == chunks[1..][..k - 1];
      assert chunks[k + 1..] == chunks[1..][k..];
    }
  }

  /** With the next chunk the frame still does not idle in what was kept. */
  lemma NextChunk(frame: Frame, chunks: seq<seq<byte>>, k: nat)
    requires Stable(frame) && StaysInside(frame) && NeverIdles(frame, Joined(chunks))
    requires k < |chunks|
    ensures var arrived := Joined(chunks[..k]);
            && Joined(chunks[..k + 1]) == arrived + chunks[k]
            && NeverIdles(frame, arrived[TotalLength(Partition(frame, arrived))..] + chunks[k])
  {
    JoinedNext(chunks, k);
    hide *;
    NotIdleBehind(frame, Joined(chunks[..k]), chunks[k], Joined(chunks[k + 1..]));
  }

  lemma NotIdleBehind(frame: Frame, data: seq<byte>, more: seq<byte>, later: seq<byte>)
    requires Stable(frame) && StaysInside(frame) && NeverIdles(frame, data + more + later)
    ensures NeverIdles(frame, data[TotalLength(Partition(frame, data))..] + more)
  {
    hide *;
    var first := Partition(frame, data);
    NeverIdlesBefore(frame, data + more, later);
    TakesMore(frame, data, more, first);
    NeverIdlesLater(frame, data + more, first);
    assert (data + more)[TotalLength(first)..] == data[TotalLength(first)..] + more;
  }

  // ---- End to end ----------------------------------------------------------------------------

  /** The calls that the reference selection asks for. */
  function ReferenceCalls(ids: IdTuple, messages: seq<Found>): seq<HandlerCall> {
    seq(|messages|, k requires 0 <= k < |messages| =>
      HandlerCall(messages[k], Select(ids, messages[k].id, messages[k].index)))
  }

  /** Over any buffer, and with any frame that does not idle in it, the strategy makes the calls that the
      reference selection asks for. */
  ghost predicate HandlesAll(strategy: Strategy, ids: IdTuple, registry: seq<Option<nat>>)
    requires WeakSorted(ids)
  {
    forall frame: Frame, data: seq<byte> :: StaysInside(frame) && NeverIdles(frame, data) ==>
      Calls(strategy, ids, registry, Messages(Partition(frame, data)))
      == ReferenceCalls(ids, Messages(Partition(frame, data)))
  }

  /** The strategy selects what the reference selects. */
  ghost predicate SelectsAll(strategy: Strategy, ids: IdTuple, registry: seq<Option<nat>>)
    requires WeakSorted(ids)
  {
    forall id: MsgId, index: nat :: DispatchMsg(strategy, ids, registry, id, index) == Select(ids, id, index)
  }

  /** End to end, a strategy handles every stream as the reference does exactly if it selects what
      the reference selects, for every ID and index. */
  lemma HandlesAllExactly(strategy: Strategy, ids: IdTuple, registry: seq<Option<nat>>)
    requires WeakSorted(ids)
    ensures HandlesAll(strategy, ids, registry) <==> SelectsAll(strategy, ids, registry)
  {
    hide DispatchMsg, Select, Partition, Messages, StaysInside, NeverIdles;
    if id: MsgId, index: nat :|
      DispatchMsg(strategy, ids, registry, id, index) != Select(ids, id, index)
    {
      OneMessageMissed(strategy, ids, registry, id, index);
    }
  }

  /** So the linear switch handles every stream as the reference does, the polymorphic strategy too,
      the static binary search exactly if the runs are short, and the automatic choice exactly if
      they are or the IDs are dense. */
  lemma StreamsByStrategy(ids: IdTuple, registry: seq<Option<nat>>)
    requires WeakSorted(ids) && Polymorphic.TableReady(ids, registry)
    ensures HandlesAll(ForcedLinearSwitch, ids, registry)
    ensures HandlesAll(ForcedPolymorphic, ids, registry)
    ensures HandlesAll(ForcedStaticBinSearch, ids, registry) <==> ShortRuns(ids)
    ensures HandlesAll(Automatic, ids, registry) <==> Polymorphic.DenseIds(ids) || ShortRuns(ids)
  {
    forall strategy
      ensures HandlesAll(strategy, ids, registry) <==> SelectsAll(strategy, ids, registry)
    {
      HandlesAllExactly(strategy, ids, registry);
    }
    hide HandlesAll, DispatchMsg, Select, ShortRuns, Polymorphic.DenseIds, WeakSorted, Polymorphic.TableReady;
    forall id: MsgId, index: nat
      ensures DispatchMsg(ForcedLinearSwitch, ids, registry, id, index) == Select(ids, id, index)
      ensures DispatchMsg(ForcedPolymorphic, ids, registry, id, index) == Select(ids, id, index)
    {
      LinearSwitchSelects(ids, registry, id, index);
      PolymorphicSelects(ids, registry, id, index);
    }
    AutomaticExactly(ids, registry);
    StaticExactly(ids, registry);
  }

  /** End to end, every strategy handles every stream as the reference does exactly when the
      runs of the tuple are short. */
  lemma StreamsHandledExactly(ids: IdTuple, registry: seq<Option<nat>>)
    requires WeakSorted(ids) && Polymorphic.TableReady(ids, registry)
    ensures (forall strategy :: HandlesAll(strategy, ids, registry)) <==> ShortRuns(ids)
  {
    hide HandlesAll, ShortRuns;
    StreamsByStrategy(ids, registry);
    assert HandlesAll(ForcedStaticBinSearch, ids, registry) <==> ShortRuns(ids);
    if ShortRuns(ids) {
      forall strategy
        ensures HandlesAll(strategy, ids, registry)
      {
        match strategy
        case Automatic | ForcedPolymorphic | ForcedStaticBinSearch | ForcedLinearSwitch =>
      }
    }
  }

  /** A frame whose every byte is a message with the given ID and index. */
  function SingleMessageFrame(id: MsgId, index: nat): Frame {
    (data: seq<byte>) =>
      if data == [] then ReadResult(NotEnoughData, 0, 0, 0) else ReadResult(Success, 1, id, index)
  }

  lemma OneMessageMissed(strategy: Strategy, ids: IdTuple, registry: seq<Option<nat>>, id: MsgId, index: nat)
    requires WeakSorted(ids)
    requires DispatchMsg(strategy, ids, registry, id, index) != Select(ids, id, index)
    ensures !HandlesAll(strategy, ids, registry)
  {
    var frame := SingleMessageFrame(id, index);
    var data, pieces := [0 as byte], [Read(ReadResult(Success, 1, id, index))];
    assert frame(data) == ReadResult(Success, 1, id, index);
    assert pieces[1..] == [] && data[1..] == [];
    assert Messages(pieces) == [Found(id, index)];
    assert TotalLength(pieces) == 1;
    TakesAll(frame, data, pieces);
    assert StaysInside(frame) && IsPartition(frame, data, pieces);
    EndsExactly(frame, data);
    var calls := Calls(strategy, ids, registry, Messages(pieces));
    var wanted := ReferenceCalls(ids, Messages(pieces));
    assert calls[0] != wanted[0];
  }
}
