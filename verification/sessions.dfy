/**
  What a composed operation does with a stream, as far as its completion condition, the
  carrier of the bytes and the outcomes of read_some or write_some decide it: which transfers
  are made, of what size, and when the operation returns.
 */
module Sessions {
  import opened Buffers
  import opened Streambuf
  import opened CompletionConditions

  /** One read_some or write_some: the stream is ready for n bytes, and it may report an
      error. */
  datatype Attempt = Attempt(n: nat, err: bool)

  /** A transfer that asked for some bytes and moved n of them. */
  datatype Move = Move(asked: nat, n: nat)

  /** All the bytes moved. */
  function Volume(moves: seq<Move>): nat {
    if moves == [] then 0 else Volume(moves[..|moves| - 1]) + moves[|moves| - 1].n
  }

  /** The bytes moved each time. */
  function Counts(moves: seq<Move>): seq<nat> {
    if moves == [] then [] else Counts(moves[..|moves| - 1]) + [moves[|moves| - 1].n]
  }

  lemma VolumeNext(moves: seq<Move>, m: Move)
    ensures Volume(moves + [m]) == Volume(moves) + m.n
  {
    assert (moves + [m])[..|moves|] == moves;
  }

  // ---------------------------------------------------------------- what one transfer carries

  /** The number of bytes in the next m buffers that are not empty, from byte `offset` of
      buffer i on; the offset may lie in a later buffer. */
  function Span(bs: seq<Buffer>, i: nat, offset: nat, m: nat): nat
    requires i <= |bs|
    decreases |bs| - i
  {
    if i == |bs| then 0
    else if offset >= bs[i].size then Span(bs, i + 1, offset - bs[i].size, m)
    else if m == 0 then 0
    else bs[i].size - offset + Span(bs, i + 1, 0, m - 1)
  }

  lemma {:induction false} SpanOfNone(bs: seq<Buffer>, i: nat, offset: nat)
    requires i <= |bs|
    ensures Span(bs, i, offset, 0) == 0
    decreases |bs| - i
  {
    if i < |bs| && offset >= bs[i].size {
      SpanOfNone(bs, i + 1, offset - bs[i].size);
    }
  }

  /** Counting may begin at any buffer before the place. */
  lemma {:induction false} SpanAt(bs: seq<Buffer>, j: nat, i: nat, o: nat, total: nat, m: nat)
    requires j <= i && IsPlace(bs, i, o, total)
    ensures Before(bs, j) <= total && Span(bs, j, total - Before(bs, j), m) == Span(bs, i, o, m)
    decreases i - j
  {
    BeforeMonotone(bs, j, i);
    if j < i {
      SpanAt(bs, j + 1, i, o, total, m);
      BeforeMonotone(bs, j + 1, i);
    }
  }

  /** It is never more than there is, something if there is something, and everything if there
      are no more than m buffers. */
  lemma {:induction false} SpanBounds(bs: seq<Buffer>, i: nat, offset: nat, m: nat)
    requires i <= |bs| && Before(bs, i) + offset <= Total(bs)
    ensures Before(bs, i) + offset + Span(bs, i, offset, m) <= Total(bs)
    ensures m > 0 && Before(bs, i) + offset < Total(bs) ==> Span(bs, i, offset, m) > 0
    ensures |bs| - i <= m ==> Before(bs, i) + offset + Span(bs, i, offset, m) == Total(bs)
    decreases |bs| - i
  {
    if i < |bs| {
      BeforeMonotone(bs, i + 1, |bs|);
      if offset >= bs[i].size {
        SpanBounds(bs, i + 1, offset - bs[i].size, m);
      } else if m > 0 {
        SpanBounds(bs, i + 1, 0, m - 1);
      }
    }
  }

  /** What the bytes are moved from or to. After k transfers the capacity of a vector exceeds
      its length by spare(k). */
  datatype Carrier =
    | OverSequence(bs: seq<Buffer>, maxBuffers: nat)
    | IntoStreambuf(layout: Layout, spare: nat -> nat)
    | IntoDynamic(output: nat, spare: nat -> nat)
  {
    /** The layout of the stream buffer after these moves, and the prepares for them. */
    function LayoutAfter(moves: seq<Move>): Layout
      requires IntoStreambuf?
    {
      if moves == [] then layout
      else
        var m := moves[|moves| - 1];
        LayoutAfter(moves[..|moves| - 1]).AfterPrepare(m.asked).AfterCommit(m.n)
    }

    /** What the next transfer asks for, within the limit and the room: the buffers that fit
        into one call, or the free capacity and 512 bytes at least. Every commit cuts a dynamic
        buffer to its data. */
    predicate IsAsk(moves: seq<Move>, n: nat, limit: nat, room: nat) {
      match this
      case OverSequence(bs, maxBuffers) => n == Min(Span(bs, 0, Volume(moves), maxBuffers), Min(limit, room))
      case IntoStreambuf(_, spare) =>
        var l := LayoutAfter(moves);
        IsAsked(n, l.Size(), l.Length() + spare(|moves|), limit, room)
      case IntoDynamic(output, spare) =>
        IsAsked(n, 0, (if moves == [] then output else 0) + spare(|moves|), limit, room)
    }
  }

  lemma LayoutNext(moves: seq<Move>, m: Move, o: Carrier)
    requires o.IntoStreambuf?
    ensures o.LayoutAfter(moves + [m]) == o.LayoutAfter(moves).AfterPrepare(m.asked).AfterCommit(m.n)
  {
    assert (moves + [m])[..|moves|] == moves;
  }

  /** There is just one such number. */
  lemma AskIsUnique(o: Carrier, moves: seq<Move>, m: nat, n: nat, limit: nat, room: nat)
    requires o.IsAsk(moves, m, limit, room) && o.IsAsk(moves, n, limit, room)
    ensures m == n
  {
  }

  // ---------------------------------------------------------------- sessions

  /** The next attempt is made because there is something to ask for; it moves what the stream
      is ready for and has left, up to what is asked for. */
  predicate IsMove(c: Condition, ready: nat, m: Move, moves: seq<Move>, length: nat, room: nat, o: Carrier) {
    && Volume(moves) <= length && Volume(moves) <= room && m.asked > 0
    && o.IsAsk(moves, m.asked, c.Ask(false, Volume(moves)), room - Volume(moves))
    && m.n == Min(Min(ready, length - Volume(moves)), m.asked)
  }

  /** The attempts are made one after the other as long as the one before it reported no
      error. */
  ghost predicate Session(c: Condition, attempts: seq<Attempt>, moves: seq<Move>, length: nat, room: nat, o: Carrier)
    decreases |moves|
  {
    && |moves| <= |attempts|
    && (moves != [] ==>
          var k := |moves| - 1;
          && Session(c, attempts, moves[..k], length, room, o)
          && (k > 0 ==> !attempts[k - 1].err)
          && IsMove(c, attempts[k].n, moves[k], moves[..k], length, room, o))
  }

  /** Where the session stands: the bytes moved so far, and the last error. */
  ghost predicate Stands(c: Condition, attempts: seq<Attempt>, moves: seq<Move>, total: nat, err: bool,
                         length: nat, room: nat, o: Carrier)
  {
    && Session(c, attempts, moves, length, room, o) && total == Volume(moves)
    && err == (moves != [] && attempts[|moves| - 1].err)
  }

  /** The session is over as soon as, and not before, there is an error, nothing more is
      granted or there is no room; as long as it is not, every attempt is made. */
  ghost predicate Ended(c: Condition, attempts: seq<Attempt>, moves: seq<Move>, total: nat, err: bool, returned: bool,
                        length: nat, room: nat, o: Carrier)
  {
    && Stands(c, attempts, moves, total, err, length, room, o)
    && (returned <==> err || c.Ask(false, total) == 0 || total == room)
    && (!returned ==> |moves| == |attempts|)
  }

  /** One more attempt. */
  lemma StandsNext(c: Condition, attempts: seq<Attempt>, moves: seq<Move>, total: nat, m: Move,
                   length: nat, room: nat, o: Carrier)
    requires Stands(c, attempts, moves, total, false, length, room, o) && |moves| < |attempts|
    requires IsMove(c, attempts[|moves|].n, m, moves, length, room, o)
    ensures Stands(c, attempts, moves + [m], total + m.n, attempts[|moves|].err, length, room, o)
  {
    assert (moves + [m])[..|moves|] == moves;
  }

  /** Each of the first m attempts finds the stream ready for something. */
  ghost predicate Ready(attempts: seq<Attempt>, m: nat) {
    m <= |attempts| && forall k | 0 <= k < m :: attempts[k].n > 0
  }

  /** Of a stream of the given length, k attempts have moved at least one byte each as long
      as the stream was ready. */
  ghost predicate KeepsPace(attempts: seq<Attempt>, k: nat, total: nat, length: nat) {
    forall m: nat | m <= k && Ready(attempts, m) :: total == length || total >= m
  }

  lemma NextPace(attempts: seq<Attempt>, k: nat, total: nat, length: nat, n: nat)
    requires KeepsPace(attempts, k, total, length) && k < |attempts| && total + n <= length
    requires attempts[k].n > 0 && total < length ==> n > 0
    ensures KeepsPace(attempts, k + 1, total + n, length)
  {
    assert Ready(attempts, k + 1) ==> Ready(attempts, k);
  }

  /** A move stays within what was granted and the room, and moves something if it can. */
  lemma MoveBounds(c: Condition, ready: nat, m: Move, moves: seq<Move>, length: nat, room: nat, o: Carrier)
    requires IsMove(c, ready, m, moves, length, room, o)
    ensures m.n <= m.asked <= c.Ask(false, Volume(moves)) && Volume(moves) + m.n <= room
    ensures Volume(moves) + m.n <= length && (ready > 0 && Volume(moves) < length ==> m.n > 0)
  {
  }

  /** What holds all through a session. */
  lemma {:induction false} SessionBounds(c: Condition, attempts: seq<Attempt>, moves: seq<Move>,
                                         length: nat, room: nat, o: Carrier)
    requires Session(c, attempts, moves, length, room, o)
    ensures Volume(moves) <= length && Volume(moves) <= room && c.Within(Volume(moves))
    ensures KeepsPace(attempts, |moves|, Volume(moves), length)
    decreases |moves|
  {
    if moves != [] {
      var k := |moves| - 1;
      SessionBounds(c, attempts, moves[..k], length, room, o);
      MoveBounds(c, attempts[k].n, moves[k], moves[..k], length, room, o);
      KeepsPromise(c, Volume(moves[..k]), moves[k].n, room);
      NextPace(attempts, k, Volume(moves[..k]), length, moves[k].n);
    }
  }

  /** A session in which something moves each time is a run of the condition alone. */
  lemma {:induction false} SessionIsGranted(c: Condition, attempts: seq<Attempt>, moves: seq<Move>,
                                            length: nat, room: nat, o: Carrier)
    requires Session(c, attempts, moves, length, room, o) && forall k | 0 <= k < |moves| :: moves[k].n > 0
    ensures Granted(c, Counts(moves)) && Sum(Counts(moves)) == Volume(moves)
    decreases |moves|
  {
    if moves != [] {
      var k := |moves| - 1;
      SessionIsGranted(c, attempts, moves[..k], length, room, o);
      MoveBounds(c, attempts[k].n, moves[k], moves[..k], length, room, o);
      RunOn(c, Counts(moves[..k]), moves[k].n);
    }
  }

  lemma MoveIsDecided(c: Condition, ready: nat, m: Move, m': Move, moves: seq<Move>, length: nat, room: nat, o: Carrier)
    requires IsMove(c, ready, m, moves, length, room, o) && IsMove(c, ready, m', moves, length, room, o)
    ensures m == m'
  {
    AskIsUnique(o, moves, m.asked, m'.asked, c.Ask(false, Volume(moves)), room - Volume(moves));
  }

  lemma {:induction false} SameMoves(c: Condition, attempts: seq<Attempt>, moves: seq<Move>, others: seq<Move>,
                                     length: nat, room: nat, o: Carrier)
    requires Session(c, attempts, moves, length, room, o) && Session(c, attempts, others, length, room, o)
    requires |moves| == |others|
    ensures moves == others
    decreases |moves|
  {
    if moves != [] {
      var k := |moves| - 1;
      var before, before' := moves[..k], others[..k];
      SameMoves(c, attempts, before, before', length, room, o);
      MoveIsDecided(c, attempts[k].n, moves[k], others[k], before, length, room, o);
      assert moves == before + [moves[k]] && others == before' + [others[k]];
    }
  }

  lemma {:induction false} SessionUpTo(c: Condition, attempts: seq<Attempt>, moves: seq<Move>, n: nat,
                                       length: nat, room: nat, o: Carrier)
    requires Session(c, attempts, moves, length, room, o) && n <= |moves|
    ensures Session(c, attempts, moves[..n], length, room, o)
    decreases |moves|
  {
    if n < |moves| {
      var before := moves[..|moves| - 1];
      SessionUpTo(c, attempts, before, n, length, room, o);
      assert before[..n] == moves[..n];
    } else {
      assert moves[..n] == moves;
    }
  }

  /** The condition, the carrier and the stream decide the session: of two, one goes on where
      the other one stopped. */
  lemma SessionIsDecided(c: Condition, attempts: seq<Attempt>, moves: seq<Move>, others: seq<Move>,
                         length: nat, room: nat, o: Carrier)
    requires Session(c, attempts, moves, length, room, o) && Session(c, attempts, others, length, room, o)
    requires |moves| <= |others|
    ensures moves == others[..|moves|]
  {
    SessionUpTo(c, attempts, others, |moves|, length, room, o);
    SameMoves(c, attempts, moves, others[..|moves|], length, room, o);
  }

  /** Main result on every session: without an error the promise of the condition is kept
      when it is over, and it is over once the stream was ready often enough. */
  lemma EndedKeepsPromise(c: Condition, attempts: seq<Attempt>, moves: seq<Move>, total: nat, err: bool,
                          returned: bool, length: nat, room: nat, o: Carrier)
    requires Ended(c, attempts, moves, total, err, returned, length, room, o)
    ensures total <= length && total <= room
    ensures returned && !err ==> c.Promise(total, room)
    ensures returned && !err ==>
              match c
              case TransferAll => total == room
              case TransferAtLeast(m) => if m == 0 then total == 0 else Min(m, room) <= total <= Min(m + 65535, room)
              case TransferExactly(s) => total == Min(s, room)
    ensures Ready(attempts, c.Goal(room)) && length >= c.Goal(room) ==> returned
  {
    SessionBounds(c, attempts, moves, length, room, o);
    KeepsPromise(c, total, 0, room);
  }

  /** A condition that grants nothing, or no room, ends the session before it begins. */
  lemma NothingToDo(c: Condition, attempts: seq<Attempt>, length: nat, o: Carrier)
    ensures Ended(c, attempts, [], 0, false, true, length, 0, o) && c.Promise(0, 0) && c.Goal(0) == 0
  {
  }
}
