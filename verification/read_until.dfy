/**
  read_until with a string delimiter (impl/read_until.hpp): read into a stream buffer until
  its input sequence contains the delimiter. The search runs over buffers_iterator and is
  taken up again after each read where a match could still begin.
 */
module ReadUntil {
  import opened Buffers
  import opened BuffersIterator
  import opened Streambuf
  import opened CompletionConditions
  import opened Sessions
  import opened Transfer

  // ---------------------------------------------------------------- matches

  /** The delimiter begins at position i of the data. */
  predicate Match(data: seq<byte>, delim: seq<byte>, i: nat) {
    i < |data| && i + |delim| <= |data| && data[i..i + |delim|] == delim
  }

  /** The data ends in the middle of what may become a match at i. */
  predicate Partial(data: seq<byte>, delim: seq<byte>, i: nat) {
    i < |data| && |data| - i < |delim| && data[i..] == delim[..|data| - i]
  }

  /** No match begins in from..to, and none will when the data grows. */
  ghost predicate NoneIn(data: seq<byte>, delim: seq<byte>, from: nat, to: nat) {
    forall i | from <= i < to :: !Match(data, delim, i) && !Partial(data, delim, i)
  }

  lemma NoneNext(data: seq<byte>, delim: seq<byte>, from: nat, to: nat)
    requires NoneIn(data, delim, from, to) && !Match(data, delim, to) && !Partial(data, delim, to)
    ensures NoneIn(data, delim, from, to + 1)
  {
  }

  /** No match begins before `n`, and none will when the data grows. */
  ghost predicate RuledOut(data: seq<byte>, delim: seq<byte>, n: nat) {
    n <= |data| && NoneIn(data, delim, 0, n)
  }

  /** A match, or the beginning of one, in the data and more is one in the data already. */
  lemma MatchWithoutMore(data: seq<byte>, more: seq<byte>, delim: seq<byte>, i: nat)
    requires i < |data| && (Match(data + more, delim, i) || Partial(data + more, delim, i))
    ensures Match(data, delim, i) || Partial(data, delim, i)
  {
    var all := data + more;
    if i + |delim| <= |data| {
      assert all[i..i + |delim|] == data[i..i + |delim|];
    } else if i + |delim| <= |all| {
      assert data[i..] == all[i..i + |delim|][..|data| - i];
    } else {
      assert data[i..] == all[i..][..|data| - i];
    }
  }

  lemma StaysRuledOut(data: seq<byte>, more: seq<byte>, delim: seq<byte>, n: nat)
    requires RuledOut(data, delim, n)
    ensures RuledOut(data + more, delim, n)
  {
    forall i | 0 <= i < n
      ensures !Match(data + more, delim, i) && !Partial(data + more, delim, i)
    {
      if Match(data + more, delim, i) || Partial(data + more, delim, i) {
        MatchWithoutMore(data, more, delim, i);
      }
    }
  }

  ghost predicate NoMatch(data: seq<byte>, delim: seq<byte>) { forall i: nat :: !Match(data, delim, i) }

  /** Position i is where the delimiter first begins. */
  ghost predicate FirstMatch(data: seq<byte>, delim: seq<byte>, i: nat) {
    Match(data, delim, i) && forall j | 0 <= j < i :: !Match(data, delim, j)
  }

  /** The first match does not depend on what comes after it. */
  lemma FirstMatchStays(data: seq<byte>, more: seq<byte>, delim: seq<byte>, i: nat)
    requires FirstMatch(data, delim, i)
    ensures FirstMatch(data + more, delim, i)
  {
    var all := data + more;
    assert all[i..i + |delim|] == data[i..i + |delim|];
    forall j | 0 <= j < i
      ensures !Match(all, delim, j)
    {
      assert !Match(data, delim, j);
      assert all[j..j + |delim|] == data[j..j + |delim|];
    }
  }

  // ---------------------------------------------------------------- partial_search

  /** `data` are the bytes of the buffer sequence. */
  ghost predicate Holds(memory: seq<byte>, bs: seq<Buffer>, data: seq<byte>) {
    |data| == Total(bs) && forall k | 0 <= k < |data| :: Addrs(bs)[k] < |memory| && memory[Addrs(bs)[k]] == data[k]
  }

  /** The delimiter agrees with the data in its first k bytes from i on. */
  ghost predicate Agrees(data: seq<byte>, delim: seq<byte>, i: nat, k: nat) {
    i + k <= |data| && k <= |delim| && forall j | 0 <= j < k :: data[i + j] == delim[j]
  }

  lemma AgreesAll(data: seq<byte>, delim: seq<byte>, i: nat, k: nat)
    requires i < |data| && Agrees(data, delim, i, k)
    ensures k == |delim| ==> Match(data, delim, i) && !Partial(data, delim, i)
    ensures k < |delim| && i + k == |data| ==> Partial(data, delim, i) && !Match(data, delim, i)
  {
  }

  lemma Differs(data: seq<byte>, delim: seq<byte>, i: nat, k: nat)
    requires k < |delim| && i + k < |data| && data[i + k] != delim[k]
    ensures !Match(data, delim, i) && !Partial(data, delim, i)
  {
    assert i + |delim| <= |data| ==> data[i..i + |delim|][k] != delim[k];
    assert |data| - i < |delim| ==> data[i..][k] != delim[..|data| - i][k];
  }

  /** Dereferencing an iterator before the end reads the byte at its position. */
  method ReadAt(mem: array<byte>, it: Iterator, ghost data: seq<byte>) returns (b: byte)
    requires it.Valid() && Holds(mem[..], it.buffers, data) && it.position < |data|
    ensures b == data[it.position]
  {
    var address := it.Dereference();
    assert mem[..][address] == data[it.position];
    b := mem[address];
  }

  datatype Comparison = Full | Begun | Different

  /** The inner loop: compare the delimiter with the bytes from an iterator on. */
  method Compare(mem: array<byte>, from: Iterator, last: Iterator, delim: seq<byte>, ghost data: seq<byte>)
    returns (r: Comparison)
    requires from.Valid() && last.Valid() && from.buffers == last.buffers && Holds(mem[..], from.buffers, data)
    requires from.position < last.position == |data|
    ensures r == Full <==> Match(data, delim, from.position)
    ensures r == Begun <==> Partial(data, delim, from.position)
  {
    var test := new Iterator.Copy(from);
    var k: nat := 0;
    ghost var i := from.position;
    while true
      invariant fresh(test) && test.Valid() && test.buffers == from.buffers && test.position == i + k
      invariant Agrees(data, delim, i, k)
      decreases |delim| - k
    {
      AgreesAll(data, delim, i, k);
      if k == |delim| {
        return Full;
      }
      if test.position == last.position {
        return Begun;
      }
      var b := ReadAt(mem, test, data);
      if b != delim[k] {
        Differs(data, delim, i, k);
        return Different;
      }
      EndIffTotal(test.buffers, test.current, test.offset, test.position);
      test.Increment();
      k := k + 1;
    }
  }

  /** partial_search up to the end of the data: the first place, from `first` on, where the
      delimiter begins, whether or not the data ends before it does. */
  method PartialSearch(mem: array<byte>, first: Iterator, last: Iterator, delim: seq<byte>, ghost data: seq<byte>)
    returns (pos: Iterator, full: bool)
    requires first.Valid() && last.Valid() && first.buffers == last.buffers && Holds(mem[..], first.buffers, data)
    requires first.position <= last.position == |data|
    ensures fresh(pos) && pos.Valid() && pos.buffers == first.buffers && first.position <= pos.position <= |data|
    ensures full <==> Match(data, delim, pos.position)
    ensures !full <==> pos.position == |data| || Partial(data, delim, pos.position)
    ensures NoneIn(data, delim, first.position, pos.position)
  {
    pos := new Iterator.Copy(first);
    while true
      invariant fresh(pos) && pos.Valid() && pos.buffers == first.buffers
      invariant first.position <= pos.position <= |data|
      invariant NoneIn(data, delim, first.position, pos.position)
      decreases |data| - pos.position
    {
      EndIffTotal(pos.buffers, pos.current, pos.offset, pos.position);
      if pos.position == last.position {
        return pos, false;
      }
      var r := Compare(mem, pos, last, delim, data);
      if r != Different {
        return pos, r == Full;
      }
      NoneNext(data, delim, first.position, pos.position);
      pos.Increment();
    }
  }

  // ---------------------------------------------------------------- read_until

  lemma InputHeld(memory: seq<byte>, from: nat, to: nat)
    requires from <= to <= |memory|
    ensures Holds(memory, [Buffer(from, to - from)], memory[from..to])
  {
    var b := Buffer(from, to - from);
    assert Addrs([b]) == AddrsBefore([b], 0) + b.Addrs() == b.Addrs();
    assert Total([b]) == Before([b], 0) + b.size;
  }

  /** The iterators of one search: over data(), from position `from` on. */
  method SearchRange(sb: BasicStreambuf, from: nat) returns (begin: Iterator, start: Iterator, end: Iterator)
    requires sb.Valid() && from <= sb.Size()
    ensures begin.Valid() && start.Valid() && end.Valid() && begin.buffers == start.buffers == end.buffers
    ensures begin.position == 0 && start.position == from && end.position == sb.Size()
    ensures Holds(sb.buffer[..], start.buffers, sb.Input())
  {
    var buffers := [Buffer(sb.gptr, sb.pptr - sb.gptr)];
    InputHeld(sb.buffer[..], sb.gptr, sb.pptr);
    assert sb.buffer[..][sb.gptr..sb.pptr] == sb.Input();
    begin := new Iterator.Begin(buffers);
    start := new Iterator.Copy(begin);
    start.Advance(from);
    end := new Iterator.End(buffers);
  }

  /** One search of the input sequence, from a position on before which it is known that no
      match begins. It finds the first match, or the position from which to go on. */
  method Search(sb: BasicStreambuf, delim: seq<byte>, from: nat) returns (found: bool, position: nat)
    requires sb.Valid() && RuledOut(sb.Input(), delim, from)
    ensures found ==> FirstMatch(sb.Input(), delim, position)
    ensures !found ==> RuledOut(sb.Input(), delim, position) && NoMatch(sb.Input(), delim)
    ensures !found ==> position == sb.Size() || Partial(sb.Input(), delim, position)
  {
    ghost var data := sb.Input();
    var begin, start, end := SearchRange(sb, from);
    var pos;
    pos, found := PartialSearch(sb.buffer, start, end, delim, data);
    position := begin.DistanceTo(pos);
  }

  datatype Result = Found(bytes: nat) | NotFound | Failed | Waiting

  /** What read_until may return, given what was searched last, and that in the buffer and on
      the stream together: the end of the first match; or there is none in what was searched,
      and this fills the buffer, or it does not and the next read fails or does not come. */
  ghost predicate Correct(r: Result, searched: seq<byte>, all: seq<byte>, delim: seq<byte>, maxSize: nat) {
    match r
    case Found(bytes) => bytes >= |delim| && FirstMatch(all, delim, bytes - |delim|) && bytes <= |searched|
    case NotFound => |searched| == maxSize && NoMatch(searched, delim)
    case _ => |searched| < maxSize && NoMatch(searched, delim)
  }

  /** The bytes that the reads before the last one moved. */
  function BeforeLast(moves: seq<Move>): nat
    requires moves != []
  {
    Volume(moves[..|moves| - 1])
  }

  /** The reads are those of a session that asks for up to 65536 bytes each time, they left the
      areas of the stream buffer as they lie, and each was made because there was no match
      yet. */
  ghost predicate Needful(layout: Layout, first: seq<byte>, stream: seq<byte>, delim: seq<byte>, maxSize: nat,
                          readings: seq<Attempt>, moves: seq<Move>, total: nat, err: bool, o: Carrier)
  {
    && o.IntoStreambuf? && layout == o.LayoutAfter(moves) && |first| + total <= maxSize && total <= |stream|
    && Stands(TransferAll, readings, moves, total, err, |stream|, maxSize - |first|, o)
    && (moves != [] ==> BeforeLast(moves) <= total && NoMatch(first + stream[..BeforeLast(moves)], delim))
  }

  /** The loop invariant: no read has failed, and no match can begin before `position`. */
  ghost predicate Searching(input: seq<byte>, layout: Layout, first: seq<byte>, stream: seq<byte>, delim: seq<byte>,
                            position: nat, maxSize: nat, readings: seq<Attempt>, moves: seq<Move>, total: nat,
                            o: Carrier)
  {
    && Needful(layout, first, stream, delim, maxSize, readings, moves, total, false, o)
    && total <= |stream| && input == first + stream[..total] && RuledOut(input, delim, position)
  }

  /** The result: it fails exactly when the last read made reports an error, which was not
      searched any more, and waits only when all reads are made. */
  ghost predicate Finished(r: Result, layout: Layout, first: seq<byte>, stream: seq<byte>, delim: seq<byte>,
                           maxSize: nat, readings: seq<Attempt>, moves: seq<Move>, total: nat, o: Carrier)
  {
    && Needful(layout, first, stream, delim, maxSize, readings, moves, total, r == Failed, o)
    && (r == Waiting ==> |moves| == |readings|) && (r == Failed ==> moves != [])
    && var searched := if r == Failed then BeforeLast(moves) else total;
       searched <= |stream| && Correct(r, first + stream[..searched], first + stream, delim, maxSize)
  }

  lemma EndsFound(input: seq<byte>, layout: Layout, first: seq<byte>, stream: seq<byte>, delim: seq<byte>,
                  position: nat, maxSize: nat, readings: seq<Attempt>, moves: seq<Move>, total: nat, o: Carrier, i: nat)
    requires Searching(input, layout, first, stream, delim, position, maxSize, readings, moves, total, o)
    requires FirstMatch(input, delim, i)
    ensures Finished(Found(i + |delim|), layout, first, stream, delim, maxSize, readings, moves, total, o)
  {
    FirstMatchStays(input, stream[total..], delim, i);
    assert input + stream[total..] == first + stream;
  }

  /** A read, from the stream to a stream buffer of the given layout that holds `size` bytes. */
  ghost predicate IsRead(size: nat, layout: Layout, layout': Layout, stream: seq<byte>, total: nat, reading: Attempt,
                         maxSize: nat, spare: nat, m: Move)
  {
    && total <= |stream| && m.n == Min(Min(reading.n, |stream| - total), m.asked)
    && size == layout.Size() < maxSize && layout' == layout.AfterPrepare(m.asked).AfterCommit(m.n)
    && IsAsked(m.asked, size, layout.Length() + spare, 65536, maxSize - size)
  }

  /** Such a read is the next move. */
  lemma ReadIsMove(layout: Layout, layout': Layout, first: seq<byte>, stream: seq<byte>, maxSize: nat,
                   reading: Attempt, moves: seq<Move>, total: nat, o: Carrier, m: Move)
    requires o.IntoStreambuf? && layout == o.LayoutAfter(moves) && total == Volume(moves)
    requires IsRead(|first| + total, layout, layout', stream, total, reading, maxSize, o.spare(|moves|), m)
    ensures IsMove(TransferAll, reading.n, m, moves, |stream|, maxSize - |first|, o)
    ensures layout' == o.LayoutAfter(moves + [m]) && Volume(moves + [m]) == total + m.n
  {
    LayoutNext(moves, m, o);
    VolumeNext(moves, m);
  }

  /** A further read, made because there is no match yet. */
  lemma NeedfulNext(layout: Layout, layout': Layout, first: seq<byte>, stream: seq<byte>, delim: seq<byte>,
                    maxSize: nat, readings: seq<Attempt>, moves: seq<Move>, total: nat, o: Carrier, m: Move)
    requires Needful(layout, first, stream, delim, maxSize, readings, moves, total, false, o)
    requires |moves| < |readings| && total <= |stream| && NoMatch(first + stream[..total], delim)
    requires IsRead(|first| + total, layout, layout', stream, total, readings[|moves|], maxSize, o.spare(|moves|), m)
    ensures Needful(layout', first, stream, delim, maxSize, readings, moves + [m], total + m.n, readings[|moves|].err,
                    o)
    ensures BeforeLast(moves + [m]) == total && total + m.n <= |stream|
  {
    ReadIsMove(layout, layout', first, stream, maxSize, readings[|moves|], moves, total, o, m);
    MoveBounds(TransferAll, readings[|moves|].n, m, moves, |stream|, maxSize - |first|, o);
    StandsNext(TransferAll, readings, moves, total, m, |stream|, maxSize - |first|, o);
    assert (moves + [m])[..|moves|] == moves;
  }

  /** After another read, the search goes on or has failed. */
  lemma AfterRead(input: seq<byte>, layout: Layout, layout': Layout, first: seq<byte>, stream: seq<byte>,
                  delim: seq<byte>, position: nat, maxSize: nat, readings: seq<Attempt>, moves: seq<Move>, total: nat,
                  o: Carrier, m: Move)
    requires Searching(input, layout, first, stream, delim, position, maxSize, readings, moves, total, o)
    requires NoMatch(input, delim) && |moves| < |readings|
    requires IsRead(|input|, layout, layout', stream, total, readings[|moves|], maxSize, o.spare(|moves|), m)
    ensures total + m.n <= |stream| && input + stream[total..total + m.n] == first + stream[..total + m.n]
    ensures if readings[|moves|].err
            then Finished(Failed, layout', first, stream, delim, maxSize, readings, moves + [m], total + m.n, o)
            else Searching(input + stream[total..total + m.n], layout', first, stream, delim, position, maxSize,
                           readings, moves + [m], total + m.n, o)
  {
    NeedfulNext(layout, layout', first, stream, delim, maxSize, readings, moves, total, o, m);
    AppendNext(first, stream, total, m.n);
    StaysRuledOut(input, stream[total..total + m.n], delim, position);
  }

  /** The read at the end of the loop: up to 65536 bytes, as there is room for. */
  method ReadMore(sb: BasicStreambuf, stream: seq<byte>, total: nat, reading: Attempt, spare: nat)
    returns (m: Move)
    requires sb.Valid() && sb.Size() < sb.maxSize && total <= |stream|
    modifies sb, sb.buffer
    ensures sb.Valid() && (sb.buffer == old(sb.buffer) || fresh(sb.buffer))
    ensures total + m.n <= |stream| && sb.Input() == old(sb.Input()) + stream[total..total + m.n]
    ensures IsRead(old(sb.Size()), old(sb.Places()), sb.Places(), stream, total, reading, sb.maxSize, spare, m)
  {
    var bytes := Available(sb, sb.buffer.Length + spare, 65536);
    m := Move(bytes, Min(Min(reading.n, |stream| - total), bytes));
    ReadExactly(sb, bytes, stream[total..total + m.n]);
  }

  /** The second half of a pass: another read, after a search without success. */
  method NextRead(sb: BasicStreambuf, stream: seq<byte>, total: nat, readings: seq<Attempt>, k: nat, spare: nat,
                  ghost first: seq<byte>, ghost delim: seq<byte>, ghost position: nat, ghost moves: seq<Move>,
                  ghost o: Carrier)
    returns (m: Move)
    requires sb.Valid() && sb.Size() < sb.maxSize && k == |moves| < |readings|
    requires o.IntoStreambuf? && spare == o.spare(k) && total <= |stream|
    requires Searching(sb.Input(), sb.Places(), first, stream, delim, position, sb.maxSize, readings, moves, total, o)
    requires NoMatch(sb.Input(), delim)
    modifies sb, sb.buffer
    ensures sb.Valid() && (sb.buffer == old(sb.buffer) || fresh(sb.buffer))
    ensures total + m.n <= |stream| && sb.Input() == first + stream[..total + m.n]
    ensures if readings[k].err
            then Finished(Failed, sb.Places(), first, stream, delim, sb.maxSize, readings, moves + [m], total + m.n, o)
            else Searching(sb.Input(), sb.Places(), first, stream, delim, position, sb.maxSize, readings, moves + [m],
                           total + m.n, o)
  {
    ghost var input, layout := sb.Input(), sb.Places();
    m := ReadMore(sb, stream, total, readings[k], spare);
    AfterRead(input, layout, sb.Places(), first, stream, delim, position, sb.maxSize, readings, moves, total, o, m);
  }

  /** The first half: the search, which may give the result. */
  method SearchOnce(sb: BasicStreambuf, delim: seq<byte>, ghost stream: seq<byte>, ghost total: nat, from: nat,
                    readings: seq<Attempt>, k: nat, ghost first: seq<byte>, ghost moves: seq<Move>, ghost o: Carrier)
    returns (done: bool, r: Result, position: nat)
    requires sb.Valid() && k == |moves| <= |readings|
    requires Searching(sb.Input(), sb.Places(), first, stream, delim, from, sb.maxSize, readings, moves, total, o)
    ensures done ==>
              && r != Failed
              && Finished(r, sb.Places(), first, stream, delim, sb.maxSize, readings, moves, total, o)
    ensures !done ==> k < |readings| && sb.Size() < sb.maxSize && NoMatch(sb.Input(), delim)
    ensures !done ==>
              Searching(sb.Input(), sb.Places(), first, stream, delim, position, sb.maxSize, readings, moves, total, o)
  {
    var found;
    found, position := Search(sb, delim, from);
    if found {
      EndsFound(sb.Input(), sb.Places(), first, stream, delim, from, sb.maxSize, readings, moves, total, o, position);
      return true, Found(position + |delim|), position;
    }
    done := sb.Size() == sb.maxSize || k == |readings|;
    r := if sb.Size() == sb.maxSize then NotFound else Waiting;
  }

  datatype Progress = GoesOn | Ends(r: Result)

  /** What holds between two passes, or after the last. */
  ghost predicate Between(p: Progress, input: seq<byte>, layout: Layout, first: seq<byte>, stream: seq<byte>,
                          delim: seq<byte>, position: nat, maxSize: nat, readings: seq<Attempt>, moves: seq<Move>,
                          total: nat, o: Carrier)
  {
    match p
    case Ends(r) =>
      && total <= |stream| && input == first + stream[..total]
      && Finished(r, layout, first, stream, delim, maxSize, readings, moves, total, o)
    case GoesOn =>
      && |moves| <= |readings|
      && Searching(input, layout, first, stream, delim, position, maxSize, readings, moves, total, o)
  }

  /** One pass through the loop of read_until. */
  method Pass(sb: BasicStreambuf, delim: seq<byte>, stream: seq<byte>, total: nat, from: nat, readings: seq<Attempt>,
              k: nat, spare: nat, ghost first: seq<byte>, ghost moves: seq<Move>, ghost o: Carrier)
    returns (p: Progress, total': nat, position: nat, ghost moves': seq<Move>)
    requires sb.Valid() && k == |moves| <= |readings| && o.IntoStreambuf? && spare == o.spare(k)
    requires total <= |stream|
    requires Searching(sb.Input(), sb.Places(), first, stream, delim, from, sb.maxSize, readings, moves, total, o)
    modifies sb, sb.buffer
    ensures sb.Valid() && (sb.buffer == old(sb.buffer) || fresh(sb.buffer)) && total' <= |stream|
    ensures p == GoesOn ==> |moves'| == k + 1
    ensures Between(p, sb.Input(), sb.Places(), first, stream, delim, position, sb.maxSize, readings, moves', total', o)
  {
    total', moves' := total, moves;
    var done, r;
    done, r, position := SearchOnce(sb, delim, stream, total, from, readings, k, first, moves, o);
    p := Ends(r);
    if !done {
      var m := NextRead(sb, stream, total, readings, k, spare, first, delim, position, moves, o);
      total', moves' := total + m.n, moves + [m];
      p := if readings[k].err then Ends(Failed) else GoesOn;
    }
  }

  /** The loop of read_until. Before read k the capacity of the vector exceeds its length by
      spare(k). */
  method ReadUntilLoop(sb: BasicStreambuf, delim: seq<byte>, stream: seq<byte>, readings: seq<Attempt>,
                       spare: nat -> nat, ghost o: Carrier)
    returns (r: Result, total: nat, ghost moves: seq<Move>)
    requires sb.Valid() && o == IntoStreambuf(sb.Places(), spare)
    modifies sb, sb.buffer
    ensures sb.Valid() && total <= |stream| && sb.Input() == old(sb.Input()) + stream[..total]
    ensures Finished(r, sb.Places(), old(sb.Input()), stream, delim, sb.maxSize, readings, moves, total, o)
  {
    ghost var first := sb.Input();
    var p: Progress, searchPosition: nat, k: nat := GoesOn, 0, 0;
    total, moves := 0, [];
    assert stream[..0] == [];
    assert Stands(TransferAll, readings, [], 0, false, |stream|, sb.maxSize - |first|, o);
    while p == GoesOn
      invariant sb.Valid() && (sb.buffer == old(sb.buffer) || fresh(sb.buffer))
      invariant total <= |stream| && (p == GoesOn ==> k == |moves| <= |readings|)
      invariant Between(p, sb.Input(), sb.Places(), first, stream, delim, searchPosition, sb.maxSize, readings, moves,
                        total, o)
      decreases p == GoesOn, |readings| - k
    {
      p, total, searchPosition, moves :=
        Pass(sb, delim, stream, total, searchPosition, readings, k, spare(k), first, moves, o);
      k := k + 1;
    }
    r := p.r;
  }

  lemma FirstMatchUnique(data: seq<byte>, delim: seq<byte>, i: nat, j: nat)
    requires FirstMatch(data, delim, i) && FirstMatch(data, delim, j)
    ensures i == j
  {
  }

  /** How much data is needed to see a match at i; an empty delimiter needs one byte. */
  function Needed(delim: seq<byte>, i: nat): nat { i + Max(|delim|, 1) }

  /** A correct result is the right one, once all was searched that is needed for it. */
  lemma FoundIfThere(r: Result, searched: seq<byte>, all: seq<byte>, delim: seq<byte>, maxSize: nat, i: nat)
    requires Correct(r, searched, all, delim, maxSize) && searched <= all
    requires FirstMatch(all, delim, i) && (r.Found? || |searched| >= Needed(delim, i))
    ensures r == Found(i + |delim|)
  {
    if r.Found? {
      FirstMatchUnique(all, delim, r.bytes - |delim|, i);
    } else {
      assert searched[i..i + |delim|] == all[i..i + |delim|];
      assert Match(searched, delim, i);
    }
  }

  /** The number of bytes of the stream that are needed to see a match at i. */
  function Missing(first: seq<byte>, delim: seq<byte>, i: nat): nat {
    if Needed(delim, i) <= |first| then 0 else Needed(delim, i) - |first|
  }

  /** The first m reads deliver something, without an error. */
  ghost predicate Delivers(readings: seq<Attempt>, m: nat) {
    Ready(readings, m) && forall k | 0 <= k < m :: !readings[k].err
  }

  /** By the last search the stream had delivered what m reads can, if these deliver. */
  lemma Reached(r: Result, layout: Layout, first: seq<byte>, stream: seq<byte>, delim: seq<byte>, maxSize: nat,
                readings: seq<Attempt>, moves: seq<Move>, total: nat, o: Carrier, m: nat)
    requires Finished(r, layout, first, stream, delim, maxSize, readings, moves, total, o)
    requires (r == Failed || r == Waiting) && Delivers(readings, m)
    ensures var searched := if r == Failed then BeforeLast(moves) else total;
            searched == |stream| || searched >= m
  {
    if r == Failed {
      assert readings[|moves| - 1].err;
      SessionBounds(TransferAll, readings, moves[..|moves| - 1], |stream|, maxSize - |first|, o);
    } else {
      SessionBounds(TransferAll, readings, moves, |stream|, maxSize - |first|, o);
    }
  }

  /** read_until. However the stream is cut into deliveries, and wherever in them the
      delimiter is split, the result is the end of its first occurrence in what was in the
      buffer followed by the stream. If it is there within the limit, and as many reads
      deliver as it takes bytes to get to it, it is found, whatever comes later. It is
      reported missing only when the buffer is full without it; a failure is that of the
      first read with an error, and it was not there before; no read is made once it is
      there; and no byte is lost. */
  method ReadUntil(sb: BasicStreambuf, delim: seq<byte>, stream: seq<byte>, readings: seq<Attempt>, spare: nat -> nat)
    returns (r: Result, total: nat, ghost moves: seq<Move>)
    requires sb.Valid()
    modifies sb, sb.buffer
    ensures sb.Valid() && total <= |stream| && sb.Input() == old(sb.Input()) + stream[..total]
    ensures var o := IntoStreambuf(old(sb.Places()), spare);
            Finished(r, sb.Places(), old(sb.Input()), stream, delim, sb.maxSize, readings, moves, total, o)
    ensures forall i: nat |
              && FirstMatch(old(sb.Input()) + stream, delim, i) && Needed(delim, i) <= sb.maxSize
              && Delivers(readings, Missing(old(sb.Input()), delim, i)) ::
              r == Found(i + |delim|)
  {
    ghost var first, o := sb.Input(), IntoStreambuf(sb.Places(), spare);
    r, total, moves := ReadUntilLoop(sb, delim, stream, readings, spare, o);
    forall i: nat |
      && FirstMatch(first + stream, delim, i) && Needed(delim, i) <= sb.maxSize
      && Delivers(readings, Missing(first, delim, i))
      ensures r == Found(i + |delim|)
    {
      FoundAtEnd(r, sb.Places(), first, stream, delim, sb.maxSize, readings, moves, total, o, i);
    }
  }

  lemma BeginningOf(first: seq<byte>, stream: seq<byte>, n: nat)
    requires n <= |stream|
    ensures first + stream[..n] <= first + stream
  {
    assert stream == stream[..n] + stream[n..];
    assert (first + stream[..n]) + stream[n..] == first + stream;
  }

  /** A match within the limit that enough reads lead to is the result. */
  lemma FoundAtEnd(r: Result, layout: Layout, first: seq<byte>, stream: seq<byte>, delim: seq<byte>, maxSize: nat,
                   readings: seq<Attempt>, moves: seq<Move>, total: nat, o: Carrier, i: nat)
    requires Finished(r, layout, first, stream, delim, maxSize, readings, moves, total, o)
    requires FirstMatch(first + stream, delim, i) && Needed(delim, i) <= maxSize
    requires Delivers(readings, Missing(first, delim, i))
    ensures r == Found(i + |delim|)
  {
    var n := if r == Failed then BeforeLast(moves) else total;
    if r == Failed || r == Waiting {
      Reached(r, layout, first, stream, delim, maxSize, readings, moves, total, o, Missing(first, delim, i));
    }
    BeginningOf(first, stream, n);
    FoundIfThere(r, first + stream[..n], first + stream, delim, maxSize, i);
  }
}
