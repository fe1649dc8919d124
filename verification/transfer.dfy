/**
  The composed operations that a completion condition controls: write and read of a buffer
  sequence through consuming_buffers (detail/consuming_buffers.hpp, impl/write.hpp,
  impl/read.hpp), and read into a stream buffer or a dynamic buffer (impl/read.hpp).
 */
module Transfer {
  import opened Buffers
  import opened ByteQueue
  import opened Streambuf
  import opened DynamicBuffers
  import opened CompletionConditions
  import opened Sessions

  // ---------------------------------------------------------------- consuming_buffers

  /** The buffers `part` hold the n bytes of the sequence bs from byte `start` on. */
  ghost predicate IsPart(part: seq<Buffer>, bs: seq<Buffer>, start: nat, n: nat) {
    Total(part) == n && start + n <= Total(bs) && Addrs(part) == Addrs(bs)[start..start + n]
  }

  lemma EmptyPart(bs: seq<Buffer>, start: nat, i: nat, o: nat)
    requires IsPlace(bs, i, o, start)
    ensures IsPart([], bs, start, 0)
  {
    BeforeMonotone(bs, i, |bs|);
    if i < |bs| {
      BeforeMonotone(bs, i + 1, |bs|);
    }
  }

  lemma ExtendPart(part: seq<Buffer>, bs: seq<Buffer>, start: nat, n: nat, elem: Buffer)
    requires IsPart(part, bs, start, n) && Continues(elem, Addrs(bs), start + n)
    ensures IsPart(part + [elem], bs, start, n + elem.size)
  {
    AppendBuffer(part, elem);
    ContinuesSlice(elem, Addrs(bs), start, start + n);
  }

  /** The rest of the buffer at a place, cut at `limit`, comes next; if it was not cut, then
      the start of the next buffer. */
  lemma NextPart(part: seq<Buffer>, bs: seq<Buffer>, start: nat, n: nat, i: nat, o: nat, limit: nat)
    requires i < |bs| && IsPlace(bs, i, o, start + n) && IsPart(part, bs, start, n)
    ensures var elem := bs[i].Plus(o).Limit(limit);
            && elem.size <= limit
            && IsPart(if elem.size > 0 then part + [elem] else part, bs, start, n + elem.size)
            && (elem.size < limit ==> IsPlace(bs, i + 1, 0, start + n + elem.size))
  {
    NextBytes(bs, i, o, limit);
    ExtendPart(part, bs, start, n, bs[i].Plus(o).Limit(limit));
  }

  /** One pass of prepare, with n bytes prepared and `left` still allowed. */
  lemma SpanNext(bs: seq<Buffer>, i: nat, o: nat, m: nat, n: nat, left: nat, all: nat)
    requires i < |bs| && o <= bs[i].size && m > 0 && left > 0 && n + Min(left, Span(bs, i, o, m)) == all
    ensures var size := bs[i].Plus(o).Limit(left).size;
            n + size + Min(left - size, Span(bs, i + 1, 0, if size > 0 then m - 1 else m)) == all
  {
  }

  /** The loop of prepare, from offset `offset` of buffer `first` on. */
  method PrepareFrom(bs: seq<Buffer>, first: nat, offset: nat, maxSize: nat, maxBuffers: nat, ghost start: nat)
    returns (result: seq<Buffer>)
    requires IsPlace(bs, first, offset, start)
    ensures |result| <= maxBuffers && |result| <= |bs| && forall i | 0 <= i < |result| :: result[i].size > 0
    ensures IsPart(result, bs, start, Min(maxSize, Span(bs, first, offset, maxBuffers)))
  {
    result := [];
    var next: nat, elemOffset: nat, left: nat := first, offset, maxSize;
    ghost var n: nat, m: nat, all := 0, maxBuffers, Min(maxSize, Span(bs, first, offset, maxBuffers));
    EmptyPart(bs, start, first, offset);
    while next != |bs| && left > 0 && |result| < maxBuffers
      invariant |result| + m == maxBuffers && |result| <= next <= |bs|
      invariant forall i | 0 <= i < |result| :: result[i].size > 0
      invariant left > 0 ==> IsPlace(bs, next, elemOffset, start + n)
      invariant IsPart(result, bs, start, n)
      invariant n + Min(left, Span(bs, next, elemOffset, m)) == all
      decreases |bs| - next
    {
      var nextBuf := bs[next].Plus(elemOffset);
      var elem := nextBuf.Limit(left);
      NextPart(result, bs, start, n, next, elemOffset, left);
      SpanNext(bs, next, elemOffset, m, n, left, all);
      m := if elem.size > 0 then m - 1 else m;
      left := left - elem.size;
      n := n + elem.size;
      elemOffset := 0;
      result := if elem.size > 0 then result + [elem] else result;
      next := next + 1;
    }
    SpanOfNone(bs, next, elemOffset);
  }

  class ConsumingBuffers {
    const buffers: seq<Buffer>
    const totalSize: nat
    var totalConsumed: nat
    var nextElem: nat
    var nextElemOffset: nat

    ghost predicate Valid()
      reads this
    {
      && totalSize == Total(buffers) && IsPlace(buffers, nextElem, nextElemOffset, totalConsumed)
      && (nextElemOffset > 0 ==> nextElemOffset < buffers[nextElem].size)
    }

    constructor (bs: seq<Buffer>)
      requires Total(bs) <= SIZE_MAX
      ensures Valid() && buffers == bs && totalConsumed == 0
    {
      var size := BufferSize(bs);
      buffers, totalSize := bs, size;
      totalConsumed, nextElem, nextElemOffset := 0, 0, 0;
      new;
      BeforeMonotone(buffers, 0, |buffers|);
    }

    /** The buffers for the next transfer: at most maxBuffers of them, none of them empty. They
        hold the next bytes of the sequence: as many as allowed, or all the bytes of the next
        maxBuffers buffers that are not empty. */
    method Prepare(maxSize: nat, maxBuffers: nat) returns (result: seq<Buffer>)
      requires Valid()
      ensures |result| <= maxBuffers && |result| <= |buffers| && forall i | 0 <= i < |result| :: result[i].size > 0
      ensures IsPart(result, buffers, totalConsumed, Min(maxSize, Span(buffers, 0, totalConsumed, maxBuffers)))
    {
      SpanAt(buffers, 0, nextElem, nextElemOffset, totalConsumed, maxBuffers);
      result := PrepareFrom(buffers, nextElem, nextElemOffset, maxSize, maxBuffers, totalConsumed);
    }

    /** Consume bytes that a transfer has moved. */
    method Consume(size: nat)
      requires Valid() && totalConsumed + size <= totalSize
      modifies this
      ensures Valid() && totalConsumed == old(totalConsumed) + size
    {
      totalConsumed := totalConsumed + size;
      var next := nextElem;
      var left: nat := size;
      while next != |buffers| && left > 0
        invariant next == nextElem && left <= size && totalConsumed == old(totalConsumed) + size
        invariant IsPlace(buffers, nextElem, nextElemOffset, totalConsumed - left)
        invariant nextElemOffset > 0 ==> nextElemOffset < buffers[nextElem].size
        decreases |buffers| - next, left
      {
        var nextBuf := buffers[next].Plus(nextElemOffset);
        if left < nextBuf.size {
          nextElemOffset := nextElemOffset + left;
          left := 0;
        } else {
          left := left - nextBuf.size;
          nextElemOffset := 0;
          nextElem := nextElem + 1;
          next := next + 1;
        }
      }
    }
  }

  // ---------------------------------------------------------------- write of a buffer sequence

  /** The bytes at a list of addresses. */
  function Gather(mem: seq<byte>, addrs: seq<nat>): (r: seq<byte>)
    requires forall i | 0 <= i < |addrs| :: addrs[i] < |mem|
    ensures |r| == |addrs| && forall i | 0 <= i < |r| :: r[i] == mem[addrs[i]]
  {
    seq(|addrs|, i requires 0 <= i < |addrs| => mem[addrs[i]])
  }

  /** The stream has taken the first `total` bytes of the sequence. */
  ghost predicate Taken(mem: seq<byte>, bs: seq<Buffer>, total: nat, wire: seq<byte>) {
    && total == |wire| <= Total(bs)
    && forall k | 0 <= k < total :: Addrs(bs)[k] < |mem| && wire[k] == mem[Addrs(bs)[k]]
  }

  lemma TakenExtends(mem: seq<byte>, bs: seq<Buffer>, part: seq<Buffer>, total: nat, wire: seq<byte>, n: nat)
    requires InMemory(bs, |mem|) && Taken(mem, bs, total, wire)
    requires IsPart(part, bs, total, Total(part)) && n <= Total(part)
    ensures forall i | 0 <= i < n :: Addrs(part)[i] < |mem|
    ensures Taken(mem, bs, total + n, wire + Gather(mem, Addrs(part)[..n]))
  {
    AddrsInMemory(bs, |bs|, |mem|);
    assert forall i | 0 <= i < n :: Addrs(part)[i] == Addrs(bs)[total + i];
  }

  /** tmp.prepare(max), and how much of it the stream moves. */
  method NextTransfer(tmp: ConsumingBuffers, c: Condition, maxBuffers: nat, ready: nat, length: nat,
                      ghost moves: seq<Move>)
    returns (bufs: seq<Buffer>, n: nat)
    requires tmp.Valid() && Volume(moves) == tmp.totalConsumed < tmp.totalSize && tmp.totalConsumed <= length
    requires maxBuffers > 0 && c.Ask(false, tmp.totalConsumed) > 0
    ensures IsPart(bufs, tmp.buffers, tmp.totalConsumed, Total(bufs)) && n <= Total(bufs)
    ensures tmp.totalConsumed + n <= length && tmp.totalConsumed + n <= tmp.totalSize
    ensures IsMove(c, ready, Move(Total(bufs), n), moves, length, tmp.totalSize, OverSequence(tmp.buffers, maxBuffers))
  {
    SpanBounds(tmp.buffers, 0, tmp.totalConsumed, maxBuffers);
    bufs := tmp.Prepare(c.Ask(false, tmp.totalConsumed), maxBuffers);
    n := Min(Min(ready, length - tmp.totalConsumed), Total(bufs));
  }

  /** tmp.consume(s.write_some(tmp.prepare(max))): the stream takes what it is ready for of
      the buffers prepared. */
  method WriteOnce(mem: array<byte>, tmp: ConsumingBuffers, c: Condition, maxBuffers: nat, ready: nat,
                   wire: seq<byte>, ghost moves: seq<Move>)
    returns (wire': seq<byte>, ghost m: Move)
    requires tmp.Valid() && Volume(moves) == tmp.totalConsumed < tmp.totalSize
    requires maxBuffers > 0 && c.Ask(false, tmp.totalConsumed) > 0
    requires InMemory(tmp.buffers, mem.Length) && Taken(mem[..], tmp.buffers, tmp.totalConsumed, wire)
    modifies tmp
    ensures tmp.Valid() && tmp.totalConsumed == old(tmp.totalConsumed) + m.n
    ensures IsMove(c, ready, m, moves, tmp.totalSize, tmp.totalSize, OverSequence(tmp.buffers, maxBuffers))
    ensures Taken(mem[..], tmp.buffers, tmp.totalConsumed, wire')
  {
    var bufs, n := NextTransfer(tmp, c, maxBuffers, ready, tmp.totalSize, moves);
    TakenExtends(mem[..], tmp.buffers, bufs, tmp.totalConsumed, wire, n);
    wire', m := wire + Gather(mem[..], Addrs(bufs)[..n]), Move(Total(bufs), n);
    tmp.Consume(n);
  }

  /** The loop of write_buffer_sequence, up to its end or until the stream has not taken the
      next bytes yet. */
  method WriteLoop(mem: array<byte>, tmp: ConsumingBuffers, c: Condition, maxBuffers: nat, writings: seq<Attempt>,
                   ghost o: Carrier)
    returns (err: bool, wire: seq<byte>, ghost moves: seq<Move>)
    requires tmp.Valid() && tmp.totalConsumed == 0 && maxBuffers > 0 && o == OverSequence(tmp.buffers, maxBuffers)
    requires InMemory(tmp.buffers, mem.Length)
    modifies tmp
    ensures tmp.Valid() && Taken(mem[..], tmp.buffers, tmp.totalConsumed, wire)
    ensures Stands(c, writings, moves, tmp.totalConsumed, err, tmp.totalSize, tmp.totalSize, o)
    ensures tmp.totalConsumed < tmp.totalSize && c.Ask(err, tmp.totalConsumed) > 0 ==> |moves| == |writings|
  {
    err, wire, moves := false, [], [];
    var i: nat := 0;
    while tmp.totalConsumed < tmp.totalSize && c.Ask(err, tmp.totalConsumed) > 0 && i < |writings|
      invariant tmp.Valid() && i == |moves| && Taken(mem[..], tmp.buffers, tmp.totalConsumed, wire)
      invariant Stands(c, writings, moves, tmp.totalConsumed, err, tmp.totalSize, tmp.totalSize, o)
      decreases |writings| - i
    {
      ghost var before, m := tmp.totalConsumed, Move(0, 0);
      wire, m := WriteOnce(mem, tmp, c, maxBuffers, writings[i].n, wire, moves);
      StandsNext(c, writings, moves, before, m, tmp.totalSize, tmp.totalSize, o);
      moves, err, i := moves + [m], writings[i].err, i + 1;
    }
  }

  /** write_buffer_sequence. What the stream has taken is the beginning of the sequence,
      in order, however it is cut into buffers and partial writes; the writes made are those
      of a session, whose promise is kept. */
  method Write(mem: array<byte>, bs: seq<Buffer>, c: Condition, maxBuffers: nat, writings: seq<Attempt>)
    returns (total: nat, err: bool, returned: bool, wire: seq<byte>, ghost moves: seq<Move>)
    requires InMemory(bs, mem.Length) && Total(bs) <= SIZE_MAX && maxBuffers > 0
    ensures Taken(mem[..], bs, total, wire)
    ensures Ended(c, writings, moves, total, err, returned, Total(bs), Total(bs), OverSequence(bs, maxBuffers))
    ensures returned && !err ==> c.Promise(total, Total(bs))
    ensures Ready(writings, c.Goal(Total(bs))) ==> returned
  {
    var tmp := new ConsumingBuffers(bs);
    err, wire, moves := WriteLoop(mem, tmp, c, maxBuffers, writings, OverSequence(bs, maxBuffers));
    total := tmp.totalConsumed;
    returned := total == tmp.totalSize || c.Ask(err, total) == 0;
    EndedKeepsPromise(c, writings, moves, total, err, returned, Total(bs), Total(bs), OverSequence(bs, maxBuffers));
  }

  // ---------------------------------------------------------------- read of a buffer sequence

  /** Memory after the first n bytes of the data were stored at the first n addresses, one
      after the other. */
  function Scatter(mem: seq<byte>, addrs: seq<nat>, data: seq<byte>, n: nat): (r: seq<byte>)
    requires n <= |addrs| && n <= |data| && forall i | 0 <= i < n :: addrs[i] < |mem|
    ensures |r| == |mem|
  {
    if n == 0 then mem else Scatter(mem, addrs, data, n - 1)[addrs[n - 1] := data[n - 1]]
  }

  /** Only these addresses change ... */
  lemma {:induction false} ScatterElsewhere(mem: seq<byte>, addrs: seq<nat>, data: seq<byte>, n: nat, a: nat)
    requires n <= |addrs| && n <= |data| && (forall i | 0 <= i < n :: addrs[i] < |mem|) && a < |mem|
    requires forall i | 0 <= i < n :: addrs[i] != a
    ensures Scatter(mem, addrs, data, n)[a] == mem[a]
  {
    if n > 0 {
      ScatterElsewhere(mem, addrs, data, n - 1, a);
    }
  }

  /** ... and each holds the last byte that was stored there. */
  lemma {:induction false} ScatterLast(mem: seq<byte>, addrs: seq<nat>, data: seq<byte>, n: nat, k: nat)
    requires k < n <= |addrs| && n <= |data| && forall i | 0 <= i < n :: addrs[i] < |mem|
    requires forall i | k < i < n :: addrs[i] != addrs[k]
    ensures Scatter(mem, addrs, data, n)[addrs[k]] == data[k]
  {
    if k < n - 1 {
      ScatterLast(mem, addrs, data, n - 1, k);
    }
  }

  /** The first `total` bytes of the sequence are the first ones of the stream, and no other
      memory has changed. */
  ghost predicate Stored(before: seq<byte>, after: seq<byte>, bs: seq<Buffer>, stream: seq<byte>, total: nat) {
    && total <= Total(bs) && total <= |stream| && |after| == |before|
    && (forall k | 0 <= k < total :: Addrs(bs)[k] < |after| && after[Addrs(bs)[k]] == stream[k])
    && (forall a: nat | a < |before| && a !in Addrs(bs)[..total] :: after[a] == before[a])
  }

  lemma ScatterIsStored(before: seq<byte>, bs: seq<Buffer>, stream: seq<byte>, total: nat)
    requires InMemory(bs, |before|) && Distinct(Addrs(bs)) && total <= Total(bs) && total <= |stream|
    ensures forall i | 0 <= i < total :: Addrs(bs)[i] < |before|
    ensures Stored(before, Scatter(before, Addrs(bs), stream, total), bs, stream, total)
  {
    AddrsInMemory(bs, |bs|, |before|);
    var addrs := Addrs(bs);
    forall a: nat | a < |before| && a !in addrs[..total]
      ensures Scatter(before, addrs, stream, total)[a] == before[a]
    {
      assert forall i | 0 <= i < total :: addrs[i] == addrs[..total][i];
      ScatterElsewhere(before, addrs, stream, total, a);
    }
    forall k | 0 <= k < total
      ensures Scatter(before, addrs, stream, total)[addrs[k]] == stream[k]
    {
      ScatterLast(before, addrs, stream, total, k);
    }
  }

  /** Writing a sequence gives back the bytes that were read into it. */
  lemma ReadThenWrite(before: seq<byte>, after: seq<byte>, bs: seq<Buffer>, stream: seq<byte>, total: nat,
                      wire: seq<byte>, written: nat)
    requires Stored(before, after, bs, stream, total) && Taken(after, bs, written, wire) && written <= total
    ensures wire == stream[..written]
  {
  }

  /** read_some(bufs): the stream stores its next n bytes in the buffers prepared, byte by
      byte. */
  method StoreNext(mem: array<byte>, bufs: seq<Buffer>, n: nat, stream: seq<byte>, total: nat,
                   ghost bs: seq<Buffer>, ghost before: seq<byte>)
    requires IsPart(bufs, bs, total, Total(bufs)) && n <= Total(bufs) && total + n <= |stream|
    requires |before| == mem.Length && forall i | 0 <= i < Total(bs) :: Addrs(bs)[i] < |before|
    requires mem[..] == Scatter(before, Addrs(bs), stream, total)
    modifies mem
    ensures mem[..] == Scatter(before, Addrs(bs), stream, total + n)
  {
    for i := 0 to n
      invariant mem[..] == Scatter(before, Addrs(bs), stream, total + i)
    {
      assert Addrs(bufs)[i] == Addrs(bs)[total + i];
      mem[Addrs(bufs)[i]] := stream[total + i];
    }
  }

  /** The loop invariant: the bytes that the session moved are stored. */
  ghost predicate Storing(before: seq<byte>, after: seq<byte>, o: Carrier, c: Condition, stream: seq<byte>,
                          readings: seq<Attempt>, moves: seq<Move>, total: nat, err: bool)
  {
    && o.OverSequence? && total <= |stream| && total <= Total(o.bs)
    && (forall i | 0 <= i < Total(o.bs) :: Addrs(o.bs)[i] < |before|)
    && after == Scatter(before, Addrs(o.bs), stream, total)
    && Stands(c, readings, moves, total, err, |stream|, Total(o.bs), o)
  }

  lemma StoringNext(before: seq<byte>, after: seq<byte>, o: Carrier, c: Condition, stream: seq<byte>,
                    readings: seq<Attempt>, moves: seq<Move>, total: nat, m: Move, after': seq<byte>)
    requires Storing(before, after, o, c, stream, readings, moves, total, false)
    requires |moves| < |readings| && IsMove(c, readings[|moves|].n, m, moves, |stream|, Total(o.bs), o)
    requires total + m.n <= |stream| && total + m.n <= Total(o.bs)
    requires after' == Scatter(before, Addrs(o.bs), stream, total + m.n)
    ensures Storing(before, after', o, c, stream, readings, moves + [m], total + m.n, readings[|moves|].err)
  {
    StandsNext(c, readings, moves, total, m, |stream|, Total(o.bs), o);
  }

  /** s.read_some(tmp.prepare(max)). */
  method ReadIntoNext(mem: array<byte>, tmp: ConsumingBuffers, c: Condition, maxBuffers: nat, stream: seq<byte>,
                      ready: nat, ghost before: seq<byte>, ghost moves: seq<Move>)
    returns (n: nat, ghost m: Move)
    requires tmp.Valid() && Volume(moves) == tmp.totalConsumed < tmp.totalSize && tmp.totalConsumed <= |stream|
    requires maxBuffers > 0 && c.Ask(false, tmp.totalConsumed) > 0
    requires |before| == mem.Length && forall i | 0 <= i < tmp.totalSize :: Addrs(tmp.buffers)[i] < |before|
    requires mem[..] == Scatter(before, Addrs(tmp.buffers), stream, tmp.totalConsumed)
    modifies mem
    ensures tmp.totalConsumed + n <= tmp.totalSize && tmp.totalConsumed + n <= |stream|
    ensures m.n == n && IsMove(c, ready, m, moves, |stream|, tmp.totalSize, OverSequence(tmp.buffers, maxBuffers))
    ensures mem[..] == Scatter(before, Addrs(tmp.buffers), stream, tmp.totalConsumed + n)
  {
    var bufs;
    bufs, n := NextTransfer(tmp, c, maxBuffers, ready, |stream|, moves);
    m := Move(Total(bufs), n);
    StoreNext(mem, bufs, n, stream, tmp.totalConsumed, tmp.buffers, before);
  }

  lemma StoringFacts(before: seq<byte>, after: seq<byte>, o: Carrier, c: Condition, stream: seq<byte>,
                     readings: seq<Attempt>, moves: seq<Move>, total: nat, err: bool)
    requires Storing(before, after, o, c, stream, readings, moves, total, err)
    ensures o.OverSequence? && total == Volume(moves) && total <= |stream| && total <= Total(o.bs)
    ensures forall i | 0 <= i < Total(o.bs) :: Addrs(o.bs)[i] < |before|
    ensures after == Scatter(before, Addrs(o.bs), stream, total)
  {
  }

  /** tmp.consume(s.read_some(tmp.prepare(max))). */
  method ReadBuffersOnce(mem: array<byte>, tmp: ConsumingBuffers, c: Condition, maxBuffers: nat, stream: seq<byte>,
                         readings: seq<Attempt>, k: nat, ghost before: seq<byte>, ghost moves: seq<Move>,
                         ghost o: Carrier)
    returns (ghost m: Move)
    requires tmp.Valid() && tmp.totalConsumed < tmp.totalSize && k == |moves| < |readings|
    requires maxBuffers > 0 && o == OverSequence(tmp.buffers, maxBuffers) && |before| == mem.Length
    requires c.Ask(false, tmp.totalConsumed) > 0
    requires Storing(before, mem[..], o, c, stream, readings, moves, tmp.totalConsumed, false)
    modifies tmp, mem
    ensures tmp.Valid()
    ensures Storing(before, mem[..], o, c, stream, readings, moves + [m], tmp.totalConsumed, readings[k].err)
  {
    ghost var after, total := mem[..], tmp.totalConsumed;
    StoringFacts(before, after, o, c, stream, readings, moves, total, false);
    var n;
    n, m := ReadIntoNext(mem, tmp, c, maxBuffers, stream, readings[k].n, before, moves);
    StoringNext(before, after, o, c, stream, readings, moves, total, m, mem[..]);
    tmp.Consume(n);
  }

  /** The loop of read_buffer_sequence, up to its end or until the stream has not delivered
      yet. */
  method ReadBuffersLoop(mem: array<byte>, tmp: ConsumingBuffers, c: Condition, maxBuffers: nat, stream: seq<byte>,
                         readings: seq<Attempt>, ghost o: Carrier)
    returns (err: bool, ghost moves: seq<Move>)
    requires tmp.Valid() && tmp.totalConsumed == 0 && maxBuffers > 0 && o == OverSequence(tmp.buffers, maxBuffers)
    requires forall i | 0 <= i < tmp.totalSize :: Addrs(tmp.buffers)[i] < mem.Length
    modifies mem, tmp
    ensures tmp.Valid()
    ensures Storing(old(mem[..]), mem[..], o, c, stream, readings, moves, tmp.totalConsumed, err)
    ensures tmp.totalConsumed < tmp.totalSize && c.Ask(err, tmp.totalConsumed) > 0 ==> |moves| == |readings|
  {
    err, moves := false, [];
    var k: nat := 0;
    ghost var before := mem[..];
    assert Stands(c, readings, [], 0, false, |stream|, tmp.totalSize, o);
    while tmp.totalConsumed < tmp.totalSize && c.Ask(err, tmp.totalConsumed) > 0 && k < |readings|
      invariant tmp.Valid() && k == |moves| <= |readings|
      invariant Storing(before, mem[..], o, c, stream, readings, moves, tmp.totalConsumed, err)
      decreases |readings| - k
    {
      ghost var m := ReadBuffersOnce(mem, tmp, c, maxBuffers, stream, readings, k, before, moves, o);
      moves, err, k := moves + [m], readings[k].err, k + 1;
    }
  }

  /** read_buffer_sequence. The first `total` bytes of the stream are stored at the first
      addresses of the sequence, in order, and nothing else in memory changes; the reads made
      are those of a session, whose promise is kept. */
  method ReadBuffers(mem: array<byte>, bs: seq<Buffer>, c: Condition, maxBuffers: nat, stream: seq<byte>,
                     readings: seq<Attempt>)
    returns (total: nat, err: bool, returned: bool, ghost moves: seq<Move>)
    requires InMemory(bs, mem.Length) && Total(bs) <= SIZE_MAX && maxBuffers > 0
    modifies mem
    ensures total <= |stream| && total <= Total(bs) && forall i | 0 <= i < total :: Addrs(bs)[i] < mem.Length
    ensures mem[..] == Scatter(old(mem[..]), Addrs(bs), stream, total)
    ensures Distinct(Addrs(bs)) ==> Stored(old(mem[..]), mem[..], bs, stream, total)
    ensures Ended(c, readings, moves, total, err, returned, |stream|, Total(bs), OverSequence(bs, maxBuffers))
    ensures returned && !err ==> c.Promise(total, Total(bs))
    ensures Ready(readings, c.Goal(Total(bs))) && |stream| >= c.Goal(Total(bs)) ==> returned
  {
    var tmp := new ConsumingBuffers(bs);
    ghost var before := mem[..];
    AddrsInMemory(bs, |bs|, mem.Length);
    err, moves := ReadBuffersLoop(mem, tmp, c, maxBuffers, stream, readings, OverSequence(bs, maxBuffers));
    total := tmp.totalConsumed;
    returned := total == tmp.totalSize || c.Ask(err, total) == 0;
    EndedKeepsPromise(c, readings, moves, total, err, returned, |stream|, Total(bs), OverSequence(bs, maxBuffers));
    if Distinct(Addrs(bs)) {
      ScatterIsStored(before, bs, stream, total);
    }
  }

  // ---------------------------------------------------------------- read into a stream buffer

  /** b.commit(s.read_some(b.prepare(available))), with `data` what the stream has next. */
  method ReadSome(sb: BasicStreambuf, available: nat, data: seq<byte>) returns (n: nat)
    requires sb.Valid() && available <= INT_MAX && sb.Size() + available <= sb.maxSize
    modifies sb, sb.buffer
    ensures sb.Valid() && (sb.buffer == old(sb.buffer) || fresh(sb.buffer))
    ensures n == Min(|data|, available)
    ensures sb.Input() == old(sb.Input()) + data[..n] && sb.Size() == old(sb.Size()) + n
    ensures sb.Places() == old(sb.Places()).AfterPrepare(available).AfterCommit(n)
  {
    PrepareRoom(sb, available);
    n := Min(|data|, available);
    WriteAndCommit(sb, data[..n]);
  }

  /** The same, when the stream has just `data` ready, which fits. */
  method ReadExactly(sb: BasicStreambuf, available: nat, data: seq<byte>)
    requires sb.Valid() && |data| <= available <= INT_MAX && sb.Size() + available <= sb.maxSize
    modifies sb, sb.buffer
    ensures sb.Valid() && (sb.buffer == old(sb.buffer) || fresh(sb.buffer))
    ensures sb.Input() == old(sb.Input()) + data
    ensures sb.Places() == old(sb.Places()).AfterPrepare(available).AfterCommit(|data|)
  {
    var n := ReadSome(sb, available, data);
    assert data[..n] == data;
  }

  /** The number of bytes that a read may ask for. */
  method Available(sb: BasicStreambuf, capacity: nat, limit: nat) returns (n: nat)
    requires sb.Valid() && sb.buffer.Length <= capacity
    ensures IsAsked(n, sb.Size(), capacity, limit, sb.maxSize - sb.Size())
    ensures n == 0 <==> limit == 0 || sb.Size() == sb.maxSize
  {
    n := ReadSize(sb.Size(), capacity, sb.maxSize, limit);
  }

  /** The loop invariant of read: the bytes that the session moved, the first `total` of the
      stream, are appended. */
  ghost predicate InProgress(input: seq<byte>, maxSize: nat, first: seq<byte>, c: Condition, stream: seq<byte>,
                             readings: seq<Attempt>, moves: seq<Move>, total: nat, err: bool, o: Carrier)
  {
    && |first| + total <= maxSize && total <= |stream| && input == first + stream[..total]
    && Stands(c, readings, moves, total, err, |stream|, maxSize - |first|, o)
  }

  lemma ProgressFacts(input: seq<byte>, maxSize: nat, first: seq<byte>, c: Condition, stream: seq<byte>,
                      readings: seq<Attempt>, moves: seq<Move>, total: nat, err: bool, o: Carrier)
    requires InProgress(input, maxSize, first, c, stream, readings, moves, total, err, o)
    ensures |first| + total <= maxSize && total == Volume(moves) <= |stream| && |input| == |first| + total
    ensures input == first + stream[..total]
    ensures Stands(c, readings, moves, total, err, |stream|, maxSize - |first|, o)
  {
  }

  lemma Begins(first: seq<byte>, maxSize: nat, c: Condition, stream: seq<byte>, readings: seq<Attempt>, o: Carrier)
    requires |first| <= maxSize
    ensures InProgress(first, maxSize, first, c, stream, readings, [], 0, false, o)
  {
    assert first == first + stream[..0];
    assert Stands(c, readings, [], 0, false, |stream|, maxSize - |first|, o);
  }

  lemma AppendNext(first: seq<byte>, stream: seq<byte>, total: nat, n: nat)
    requires total + n <= |stream|
    ensures first + stream[..total] + stream[total..total + n] == first + stream[..total + n]
  {
    assert stream[..total] + stream[total..total + n] == stream[..total + n];
  }

  /** A move of the session keeps it. */
  lemma ProgressNext(input: seq<byte>, maxSize: nat, first: seq<byte>, c: Condition, stream: seq<byte>,
                     readings: seq<Attempt>, moves: seq<Move>, total: nat, m: Move, o: Carrier)
    requires InProgress(input, maxSize, first, c, stream, readings, moves, total, false, o)
    requires |moves| < |readings| && |first| <= maxSize
    requires IsMove(c, readings[|moves|].n, m, moves, |stream|, maxSize - |first|, o)
    ensures total + m.n <= |stream|
    ensures InProgress(input + stream[total..total + m.n], maxSize, first, c, stream, readings, moves + [m],
                       total + m.n, readings[|moves|].err, o)
  {
    ProgressFacts(input, maxSize, first, c, stream, readings, moves, total, false, o);
    MoveBounds(c, readings[|moves|].n, m, moves, |stream|, maxSize - |first|, o);
    StandsNext(c, readings, moves, total, m, |stream|, maxSize - |first|, o);
    AppendNext(first, stream, total, m.n);
  }

  /** When nothing more may be asked for, or all reads are made, the session has ended or
      waits. */
  lemma ProgressEnds(input: seq<byte>, maxSize: nat, first: seq<byte>, c: Condition, stream: seq<byte>,
                     readings: seq<Attempt>, moves: seq<Move>, total: nat, err: bool, o: Carrier, returned: bool)
    requires InProgress(input, maxSize, first, c, stream, readings, moves, total, err, o)
    requires returned <==> c.Ask(err, total) == 0 || |input| == maxSize
    requires !returned ==> |moves| == |readings|
    ensures |first| <= maxSize && total <= |stream| && input == first + stream[..total]
    ensures var room, goal := maxSize - |first|, c.Goal(maxSize - |first|);
            && Ended(c, readings, moves, total, err, returned, |stream|, room, o)
            && (returned && !err ==> c.Promise(total, room))
            && (Ready(readings, goal) && |stream| >= goal ==> returned)
  {
    ProgressFacts(input, maxSize, first, c, stream, readings, moves, total, err, o);
    assert c.Ask(true, total) == 0;
    EndedKeepsPromise(c, readings, moves, total, err, returned, |stream|, maxSize - |first|, o);
  }

  /** What is asked for when `size` bytes are there: the loop invariant for it. */
  ghost predicate Asking(available: nat, size: nat, capacity: nat, maxSize: nat, c: Condition, err: bool, total: nat) {
    size <= maxSize && IsAsked(available, size, capacity, c.Ask(err, total), maxSize - size)
  }

  lemma AskingFacts(available: nat, size: nat, capacity: nat, maxSize: nat, c: Condition, err: bool, total: nat)
    requires Asking(available, size, capacity, maxSize, c, err, total)
    ensures available == 0 <==> c.Ask(err, total) == 0 || size == maxSize
    ensures size + available <= maxSize && available <= 65536 && (available > 0 ==> !err)
  {
  }

  /** Delivering what is asked for, as far as there is something, is a move. */
  lemma StreambufMove(layout: Layout, maxSize: nat, first: seq<byte>, c: Condition, ready: nat, moves: seq<Move>,
                      total: nat, length: nat, available: nat, o: Carrier)
    requires o.IntoStreambuf? && layout == o.LayoutAfter(moves) && total == Volume(moves) <= length
    requires layout.Size() == |first| + total <= maxSize && available > 0
    requires Asking(available, |first| + total, layout.Length() + o.spare(|moves|), maxSize, c, false, total)
    ensures var m := Move(available, Min(Min(ready, length - total), available));
            IsMove(c, ready, m, moves, length, maxSize - |first|, o)
  {
  }

  /** The loop invariant for a stream buffer: its areas lie as the moves left them. */
  ghost predicate Reading(input: seq<byte>, layout: Layout, maxSize: nat, first: seq<byte>, c: Condition,
                          stream: seq<byte>, readings: seq<Attempt>, moves: seq<Move>, total: nat, err: bool,
                          available: nat, o: Carrier, k: nat)
  {
    && k == |moves| && o.IntoStreambuf? && layout == o.LayoutAfter(moves) && layout.Size() == |input|
    && InProgress(input, maxSize, first, c, stream, readings, moves, total, err, o)
    && Asking(available, |input|, layout.Length() + o.spare(k), maxSize, c, err, total)
  }

  lemma ReadingFacts(input: seq<byte>, layout: Layout, maxSize: nat, first: seq<byte>, c: Condition,
                     stream: seq<byte>, readings: seq<Attempt>, moves: seq<Move>, total: nat, err: bool,
                     available: nat, o: Carrier, k: nat)
    requires Reading(input, layout, maxSize, first, c, stream, readings, moves, total, err, available, o, k)
    ensures k == |moves| && total <= |stream| && |input| + available <= maxSize && available <= 65536
    ensures available == 0 <==> c.Ask(err, total) == 0 || |input| == maxSize
    ensures InProgress(input, maxSize, first, c, stream, readings, moves, total, err, o)
  {
    AskingFacts(available, |input|, layout.Length() + o.spare(k), maxSize, c, err, total);
  }

  lemma ReadingMove(input: seq<byte>, layout: Layout, maxSize: nat, first: seq<byte>, c: Condition,
                    stream: seq<byte>, readings: seq<Attempt>, moves: seq<Move>, total: nat, err: bool,
                    available: nat, o: Carrier, k: nat)
    requires Reading(input, layout, maxSize, first, c, stream, readings, moves, total, err, available, o, k)
    requires available > 0 && k < |readings|
    ensures !err && |first| <= maxSize && total <= |stream|
    ensures var m := Move(available, Min(Min(readings[k].n, |stream| - total), available));
            IsMove(c, readings[k].n, m, moves, |stream|, maxSize - |first|, o)
  {
    ProgressFacts(input, maxSize, first, c, stream, readings, moves, total, err, o);
    AskingFacts(available, |input|, layout.Length() + o.spare(k), maxSize, c, err, total);
    StreambufMove(layout, maxSize, first, c, readings[k].n, moves, total, |stream|, available, o);
  }

  /** What the next transfer, of n bytes, does to it. */
  lemma ReadingNext(input: seq<byte>, layout: Layout, maxSize: nat, first: seq<byte>, c: Condition,
                    stream: seq<byte>, readings: seq<Attempt>, moves: seq<Move>, total: nat, err: bool,
                    available: nat, o: Carrier, k: nat, n: nat, layout': Layout, next: nat)
    requires Reading(input, layout, maxSize, first, c, stream, readings, moves, total, err, available, o, k)
    requires available > 0 && k < |readings| && total <= |stream|
    requires n == Min(Min(readings[k].n, |stream| - total), available)
    requires layout' == layout.AfterPrepare(available).AfterCommit(n) && layout'.Size() == |input| + n
    requires Asking(next, |input| + n, layout'.Length() + o.spare(k + 1), maxSize, c, readings[k].err, total + n)
    ensures total + n <= |stream|
    ensures Reading(input + stream[total..total + n], layout', maxSize, first, c, stream, readings,
                    moves + [Move(available, n)], total + n, readings[k].err, next, o, k + 1)
  {
    ReadingMove(input, layout, maxSize, first, c, stream, readings, moves, total, err, available, o, k);
    LayoutNext(moves, Move(available, n), o);
    ProgressNext(input, maxSize, first, c, stream, readings, moves, total, Move(available, n), o);
  }

  /** The next transfer, with a stream that is ready for so many bytes, and what may be asked
      for after it. */
  method Deliver(sb: BasicStreambuf, c: Condition, stream: seq<byte>, total: nat, reading: Attempt, available: nat,
                 spare: nat)
    returns (n: nat, next: nat)
    requires sb.Valid() && total <= |stream| && available <= 65536 && sb.Size() + available <= sb.maxSize
    modifies sb, sb.buffer
    ensures sb.Valid() && (sb.buffer == old(sb.buffer) || fresh(sb.buffer))
    ensures n == Min(Min(reading.n, |stream| - total), available)
    ensures sb.Input() == old(sb.Input()) + stream[total..total + n]
    ensures sb.Places() == old(sb.Places()).AfterPrepare(available).AfterCommit(n)
    ensures Asking(next, |sb.Input()|, sb.Places().Length() + spare, sb.maxSize, c, reading.err, total + n)
  {
    n := Min(Min(reading.n, |stream| - total), available);
    ReadExactly(sb, available, stream[total..total + n]);
    next := Available(sb, sb.buffer.Length + spare, c.Ask(reading.err, total + n));
  }

  /** One pass through the loop. */
  method ReadOnce(sb: BasicStreambuf, ghost first: seq<byte>, c: Condition, stream: seq<byte>,
                  readings: seq<Attempt>, ghost moves: seq<Move>, total: nat, ghost err: bool, available: nat,
                  ghost o: Carrier, k: nat, spare: nat)
    returns (n: nat, next: nat)
    requires sb.Valid() && available > 0 && k < |readings| && o.IntoStreambuf? && spare == o.spare(k + 1)
    requires Reading(sb.Input(), sb.Places(), sb.maxSize, first, c, stream, readings, moves, total, err, available, o,
                     k)
    modifies sb, sb.buffer
    ensures sb.Valid() && (sb.buffer == old(sb.buffer) || fresh(sb.buffer))
    ensures Reading(sb.Input(), sb.Places(), sb.maxSize, first, c, stream, readings, moves + [Move(available, n)],
                    total + n, readings[k].err, next, o, k + 1)
  {
    ghost var input, layout := sb.Input(), sb.Places();
    ReadingFacts(input, layout, sb.maxSize, first, c, stream, readings, moves, total, err, available, o, k);
    n, next := Deliver(sb, c, stream, total, readings[k], available, spare);
    ReadingNext(input, layout, sb.maxSize, first, c, stream, readings, moves, total, err, available, o, k, n,
                sb.Places(), next);
  }

  /** The loop of read; it is left when nothing more may be asked for, or when the stream
      has not delivered yet. */
  method ReadLoop(sb: BasicStreambuf, c: Condition, stream: seq<byte>, readings: seq<Attempt>, spare: nat -> nat,
                  ask: nat, ghost o: Carrier)
    returns (total: nat, err: bool, available: nat, ghost moves: seq<Move>)
    requires sb.Valid() && o == IntoStreambuf(sb.Places(), spare)
    requires Asking(ask, |sb.Input()|, sb.Places().Length() + spare(0), sb.maxSize, c, false, 0)
    modifies sb, sb.buffer
    ensures sb.Valid()
    ensures InProgress(sb.Input(), sb.maxSize, old(sb.Input()), c, stream, readings, moves, total, err, o)
    ensures available == 0 <==> c.Ask(err, total) == 0 || |sb.Input()| == sb.maxSize
    ensures available > 0 ==> |moves| == |readings|
  {
    total, err, available, moves := 0, false, ask, [];
    ghost var first := sb.Input();
    var k: nat := 0;
    Begins(first, sb.maxSize, c, stream, readings, o);
    while available > 0 && k < |readings|
      invariant sb.Valid() && (sb.buffer == old(sb.buffer) || fresh(sb.buffer)) && k <= |readings|
      invariant Reading(sb.Input(), sb.Places(), sb.maxSize, first, c, stream, readings, moves, total, err, available,
                        o, k)
      decreases |readings| - k
    {
      var n, next := ReadOnce(sb, first, c, stream, readings, moves, total, err, available, o, k, spare(k + 1));
      moves := moves + [Move(available, n)];
      total, err, available, k := total + n, readings[k].err, next, k + 1;
    }
    ReadingFacts(sb.Input(), sb.Places(), sb.maxSize, first, c, stream, readings, moves, total, err, available, o, k);
  }

  /** read(stream, streambuf, condition). Preparing never throws; the bytes delivered, the
      first `total` of the stream, are appended to the input sequence, none lost and none
      twice; the reads made are those of a session, whose promise is kept, for the room there
      was. */
  method Read(sb: BasicStreambuf, c: Condition, stream: seq<byte>, readings: seq<Attempt>, spare: nat -> nat)
    returns (total: nat, err: bool, returned: bool, ghost moves: seq<Move>)
    requires sb.Valid()
    modifies sb, sb.buffer
    ensures sb.Valid() && total <= |stream| && sb.Input() == old(sb.Input()) + stream[..total]
    ensures var o := IntoStreambuf(old(sb.Places()), spare);
            Ended(c, readings, moves, total, err, returned, |stream|, sb.maxSize - old(sb.Size()), o)
    ensures returned && !err ==> c.Promise(total, sb.maxSize - old(sb.Size()))
    ensures var goal := c.Goal(sb.maxSize - old(sb.Size()));
            Ready(readings, goal) && |stream| >= goal ==> returned
  {
    ghost var first, o := sb.Input(), IntoStreambuf(sb.Places(), spare);
    var available := Available(sb, sb.buffer.Length + spare(0), c.Ask(false, 0));
    total, err, available, moves := ReadLoop(sb, c, stream, readings, spare, available, o);
    returned := available == 0;
    ProgressEnds(sb.Input(), sb.maxSize, first, c, stream, readings, moves, total, err, o, returned);
  }

  // ---------------------------------------------------------------- read into a dynamic buffer

  /** The difference of two size_t. */
  function SubSize(a: nat, b: nat): (r: nat)
    requires a <= SIZE_MAX && b <= SIZE_MAX
    ensures r == if b <= a then a - b else 0x1_0000_0000_0000_0000 - (b - a)
  {
    (a - b) % (SIZE_MAX + 1)
  }

  /** The number of bytes that a read may ask for. A dynamic buffer may hold more than its
      limit from the start; then the difference wraps around and there seems to be room. */
  method AvailableDynamic(b: DynamicBuffer, capacity: nat, limit: nat) returns (n: nat)
    requires b.Valid() && |b.storage| <= capacity && b.size <= SIZE_MAX && b.maxSize <= SIZE_MAX
    ensures IsAsked(n, b.size, capacity, limit, SubSize(b.maxSize, b.size))
    ensures n == 0 <==> limit == 0 || b.size == b.maxSize
  {
    n := Min(Max(512, capacity - b.size), Min(limit, SubSize(b.maxSize, b.size)));
  }

  /** b.commit(s.read_some(...)), for the space that prepare gave. */
  method CommitDelivered(b: DynamicBuffer, data: seq<byte>) returns (n: nat)
    requires b.Valid()
    modifies b
    ensures b.Valid() && n == Min(|data|, old(|b.Output()|)) && b.Input() == old(b.Input()) + data[..n]
    ensures b.Output() == []
  {
    n := Min(|data|, |b.storage| - b.size);
    ghost var output := b.Output();
    b.Write(0, data[..n]);
    WrittenFirst(output, data[..n], b.Output());
    b.Commit(n);
  }

  /** The capacity of a dynamic buffer that holds `size` bytes, after these moves. */
  function DynamicCapacity(o: Carrier, moves: seq<Move>, size: nat): nat
    requires o.IntoDynamic?
  {
    size + (if moves == [] then o.output else 0) + o.spare(|moves|)
  }

  /** Delivering what is asked for, as far as there is something, is a move. */
  lemma DynamicMove(size: nat, maxSize: nat, first: seq<byte>, c: Condition, ready: nat, moves: seq<Move>, total: nat,
                    length: nat, available: nat, o: Carrier)
    requires o.IntoDynamic? && total == Volume(moves) <= length && size == |first| + total && available > 0
    requires Asking(available, size, DynamicCapacity(o, moves, size), maxSize, c, false, total)
    ensures var m := Move(available, Min(Min(ready, length - total), available));
            IsMove(c, ready, m, moves, length, maxSize - |first|, o)
  {
  }

  /** What the next transfer, of n bytes, does to the invariants. */
  lemma DynamicNext(input: seq<byte>, maxSize: nat, first: seq<byte>, c: Condition, stream: seq<byte>,
                    readings: seq<Attempt>, moves: seq<Move>, total: nat, err: bool, available: nat, o: Carrier, n: nat)
    requires InProgress(input, maxSize, first, c, stream, readings, moves, total, err, o) && |moves| < |readings|
    requires o.IntoDynamic? && available > 0
    requires Asking(available, |input|, DynamicCapacity(o, moves, |input|), maxSize, c, err, total)
    requires total <= |stream| && n == Min(Min(readings[|moves|].n, |stream| - total), available)
    ensures total + n <= |stream| && |input| + available <= maxSize
    ensures InProgress(input + stream[total..total + n], maxSize, first, c, stream, readings,
                       moves + [Move(available, n)], total + n, readings[|moves|].err, o)
  {
    ProgressFacts(input, maxSize, first, c, stream, readings, moves, total, err, o);
    AskingFacts(available, |input|, DynamicCapacity(o, moves, |input|), maxSize, c, err, total);
    DynamicMove(|input|, maxSize, first, c, readings[|moves|].n, moves, total, |stream|, available, o);
    ProgressNext(input, maxSize, first, c, stream, readings, moves, total, Move(available, n), o);
  }

  /** The next transfer, after the prepare, and what may be asked for after it. */
  method DeliverDynamic(b: DynamicBuffer, c: Condition, stream: seq<byte>, total: nat, reading: Attempt, spare: nat)
    returns (n: nat, next: nat)
    requires b.Valid() && b.maxSize <= SIZE_MAX && total <= |stream| && b.size + |b.Output()| <= b.maxSize
    modifies b
    ensures b.Valid() && n == Min(Min(reading.n, |stream| - total), old(|b.Output()|))
    ensures b.Input() == old(b.Input()) + stream[total..total + n]
    ensures Asking(next, |b.Input()|, |b.Input()| + spare, b.maxSize, c, reading.err, total + n)
  {
    n := Min(Min(reading.n, |stream| - total), |b.storage| - b.size);
    var data := stream[total..total + n];
    var got := CommitDelivered(b, data);
    assert data[..got] == data;
    next := AvailableDynamic(b, |b.storage| + spare, c.Ask(reading.err, total + n));
  }

  /** The rest of one pass, after the prepare. */
  method ReadOnceDynamic(b: DynamicBuffer, ghost first: seq<byte>, c: Condition, stream: seq<byte>,
                         readings: seq<Attempt>, ghost moves: seq<Move>, k: nat, total: nat, ghost err: bool,
                         available: nat, ghost o: Carrier, spare: nat)
    returns (n: nat, next: nat)
    requires b.Valid() && b.maxSize <= SIZE_MAX && available == |b.Output()| > 0 && k == |moves| < |readings|
    requires o.IntoDynamic? && spare == o.spare(k + 1) && total <= |stream|
    requires InProgress(b.Input(), b.maxSize, first, c, stream, readings, moves, total, err, o)
    requires Asking(available, |b.Input()|, DynamicCapacity(o, moves, |b.Input()|), b.maxSize, c, err, total)
    modifies b
    ensures b.Valid() && total + n <= |stream|
    ensures InProgress(b.Input(), b.maxSize, first, c, stream, readings, moves + [Move(available, n)], total + n,
                       readings[k].err, o)
    ensures Asking(next, |b.Input()|, DynamicCapacity(o, moves + [Move(available, n)], |b.Input()|), b.maxSize, c,
                   readings[k].err, total + n)
  {
    n := Min(Min(readings[k].n, |stream| - total), available);
    DynamicNext(b.Input(), b.maxSize, first, c, stream, readings, moves, total, err, available, o, n);
    n, next := DeliverDynamic(b, c, stream, total, readings[k], spare);
  }

  datatype Ending = Returned | Threw | Pending

  /** Where the loop stands. A prepare threw, because the buffer held more than its limit and
      something was asked for first; or all reads are made; or it goes on as for the stream
      buffer, unless the buffer held more than its limit and nothing was done yet. */
  ghost predicate Underway(ending: Ending, input: seq<byte>, maxSize: nat, first: seq<byte>, c: Condition,
                           stream: seq<byte>, readings: seq<Attempt>, moves: seq<Move>, total: nat, err: bool,
                           available: nat, o: Carrier, ask: nat)
  {
    o.IntoDynamic? &&
    if |first| > maxSize then
      && total == 0 && !err && input == first && moves == []
      && (ending == Threw ==> ask > 0) && (ending == Returned ==> available == ask) && ending != Pending
    else
      && InProgress(input, maxSize, first, c, stream, readings, moves, total, err, o)
      && Asking(available, |input|, DynamicCapacity(o, moves, |input|), maxSize, c, err, total)
      && ending != Threw && (ending == Pending ==> available > 0 && |moves| == |readings|)
  }

  /** One pass: the prepare, which comes before the stream is asked, and the read if that did
      not throw and the stream delivers. */
  method PassDynamic(b: DynamicBuffer, ghost first: seq<byte>, c: Condition, stream: seq<byte>,
                     readings: seq<Attempt>, ghost moves: seq<Move>, k: nat, total: nat, err: bool, available: nat,
                     ghost o: Carrier, spare: nat, ghost ask: nat)
    returns (ending: Ending, total': nat, err': bool, next: nat, ghost moves': seq<Move>)
    requires b.Valid() && b.maxSize <= SIZE_MAX && available > 0 && k == |moves| <= |readings|
    requires o.IntoDynamic? && spare == o.spare(k + 1) && total <= |stream|
    requires Underway(Returned, b.Input(), b.maxSize, first, c, stream, readings, moves, total, err, available, o, ask)
    modifies b
    ensures b.Valid() && total' <= |stream|
    ensures Underway(ending, b.Input(), b.maxSize, first, c, stream, readings, moves', total', err', next, o, ask)
    ensures ending == Returned ==> |moves'| == k + 1 <= |readings|
  {
    total', err', next, moves' := total, err, available, moves;
    var ok := b.Prepare(available);
    ending := if !ok then Threw else if k == |readings| then Pending else Returned;
    if ending == Returned {
      var n;
      n, next := ReadOnceDynamic(b, first, c, stream, readings, moves, k, total, err, available, o, spare);
      total', err', moves' := total + n, readings[k].err, moves + [Move(available, n)];
    }
  }

  /** The loop, until nothing more may be asked for, a prepare throws or the stream has not
      delivered yet. */
  method ReadLoopDynamic(b: DynamicBuffer, c: Condition, stream: seq<byte>, readings: seq<Attempt>,
                         spare: nat -> nat, ask: nat, ghost o: Carrier)
    returns (total: nat, err: bool, ending: Ending, ghost moves: seq<Move>, ghost available: nat)
    requires b.Valid() && b.maxSize <= SIZE_MAX && o.IntoDynamic? && o.spare == spare
    requires Underway(Returned, b.Input(), b.maxSize, b.Input(), c, stream, readings, [], 0, false, ask, o, ask)
    modifies b
    ensures b.Valid() && (ending == Returned ==> available == 0)
    ensures Underway(ending, b.Input(), b.maxSize, old(b.Input()), c, stream, readings, moves, total, err, available, o,
                     ask)
  {
    var k: nat, left: nat := 0, ask;
    ghost var first := b.Input();
    total, err, moves, ending := 0, false, [], Returned;
    while left > 0 && ending == Returned
      invariant b.Valid() && total <= |stream| && (ending == Returned ==> k == |moves| <= |readings|)
      invariant Underway(ending, b.Input(), b.maxSize, first, c, stream, readings, moves, total, err, left, o, ask)
      decreases ending == Returned, |readings| - k
    {
      ending, total, err, left, moves :=
        PassDynamic(b, first, c, stream, readings, moves, k, total, err, left, o, spare(k + 1), ask);
      k := k + 1;
    }
    available := left;
  }

  /** What it means that the loop has ended. */
  lemma UnderwayEnds(ending: Ending, input: seq<byte>, maxSize: nat, first: seq<byte>, c: Condition,
                     stream: seq<byte>, readings: seq<Attempt>, moves: seq<Move>, total: nat, err: bool,
                     available: nat, o: Carrier, ask: nat)
    requires Underway(ending, input, maxSize, first, c, stream, readings, moves, total, err, available, o, ask)
    requires (ending == Returned ==> available == 0) && (ask == 0 <==> c.Ask(false, 0) == 0 || |first| == maxSize)
    ensures total <= |stream| && input == first + stream[..total]
    ensures ending == Threw <==> |first| > maxSize && c.Ask(false, 0) > 0
    ensures ending == Threw ==> total == 0 && !err && moves == []
    ensures var room, goal := Room(|first|, maxSize), c.Goal(Room(|first|, maxSize));
            && (ending != Threw ==> Ended(c, readings, moves, total, err, ending == Returned, |stream|, room, o))
            && (ending == Returned && !err ==> c.Promise(total, room))
            && (Ready(readings, goal) && |stream| >= goal ==> ending != Pending)
  {
    if |first| > maxSize {
      assert first == first + stream[..0];
      NothingToDo(c, readings, |stream|, o);
    } else {
      AskingFacts(available, |input|, DynamicCapacity(o, moves, |input|), maxSize, c, err, total);
      ProgressEnds(input, maxSize, first, c, stream, readings, moves, total, err, o, ending == Returned);
    }
  }

  /** The room that a buffer has at first. */
  function Room(size: nat, maxSize: nat): nat { if size <= maxSize then maxSize - size else 0 }

  /** read(stream, dynamic buffer, condition). A prepare throws if and only if the buffer
      holds more than its limit at the start and the condition grants anything; then the
      buffer is unchanged and nothing was read. Otherwise it is as for the stream buffer. */
  method ReadDynamic(b: DynamicBuffer, c: Condition, stream: seq<byte>, readings: seq<Attempt>, spare: nat -> nat)
    returns (total: nat, err: bool, ending: Ending, ghost moves: seq<Move>)
    requires b.Valid() && b.size <= SIZE_MAX && b.maxSize <= SIZE_MAX
    modifies b
    ensures b.Valid() && total <= |stream| && b.Input() == old(b.Input()) + stream[..total]
    ensures ending == Threw <==> old(b.size) > b.maxSize && c.Ask(false, 0) > 0
    ensures ending == Threw ==> total == 0 && !err && moves == []
    ensures var room, o := Room(old(b.size), b.maxSize), IntoDynamic(old(|b.Output()|), spare);
            ending != Threw ==> Ended(c, readings, moves, total, err, ending == Returned, |stream|, room, o)
    ensures ending == Returned && !err ==> c.Promise(total, Room(old(b.size), b.maxSize))
    ensures var goal := c.Goal(Room(old(b.size), b.maxSize));
            Ready(readings, goal) && |stream| >= goal ==> ending != Pending
  {
    ghost var first, left, o := b.Input(), 0, IntoDynamic(|b.Output()|, spare);
    var available := AvailableDynamic(b, |b.storage| + spare(0), c.Ask(false, 0));
    if |first| <= b.maxSize {
      Begins(first, b.maxSize, c, stream, readings, o);
    }
    total, err, ending, moves, left := ReadLoopDynamic(b, c, stream, readings, spare, available, o);
    UnderwayEnds(ending, b.Input(), b.maxSize, first, c, stream, readings, moves, total, err, left, o, available);
  }
}
