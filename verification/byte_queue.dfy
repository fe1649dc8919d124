/**
  The contract shared by basic_streambuf and the dynamic buffers: a bounded queue of
  bytes. The input sequence holds what was appended and not yet removed; the output
  sequence is space that a client may write to and then commit.
 */
module ByteQueue {
  import opened Buffers

  datatype Queue = Queue(input: seq<byte>, output: seq<byte>, max: nat)

  datatype Op =
    | Prepare(n: nat)
    | Write(at: nat, bytes: seq<byte>)   // a client writes into the output sequence
    | Commit(n: nat)
    | Consume(n: nat)
    | PutChar(c: byte)                   // sputc: one character appended, through overflow when necessary
    | TakeChar                           // sbumpc: one character removed, through underflow when necessary

  /** The calls that return normally, and the writes that stay inside the output sequence. */
  predicate Enabled(q: Queue, op: Op) {
    match op
    case Prepare(n) => |q.input| + n <= q.max
    case Write(at, bytes) => at + |bytes| <= |q.output|
    case PutChar(_) => |q.input| < q.max
    case _ => true
  }

  /** The bytes that an operation adds at the end of the input sequence. */
  function Added(q: Queue, op: Op): seq<byte> {
    match op
    case Commit(n) => q.output[..Min(n, |q.output|)]
    case PutChar(c) => [c]
    case _ => []
  }

  /** The bytes that an operation removes from the front of the input sequence. */
  function Removed(q: Queue, op: Op): seq<byte> {
    match op
    case Consume(n) => q.input[..Min(n, |q.input|)]
    case TakeChar => q.input[..Min(1, |q.input|)]
    case _ => []
  }

  /** A normal return of `op` takes q to q'. The output sequence after a prepare is only
      promised to be large enough; what a commit leaves of it may be discarded. */
  ghost predicate Step(q: Queue, op: Op, q': Queue) {
    && q'.max == q.max
    && Enabled(q, op)
    && Removed(q, op) + q'.input == q.input + Added(q, op)
    && match op
       case Prepare(n) => |q'.output| >= n
       case Write(at, bytes) => q'.output == q.output[..at] + bytes + q.output[at + |bytes|..]
       case Commit(n) => q'.output <= q.output[Min(n, |q.output|)..]
       case _ => true
  }

  lemma PrepareStep(q: Queue, n: nat, q': Queue)
    requires q'.max == q.max && |q.input| + n <= q.max && q'.input == q.input && |q'.output| >= n
    ensures Step(q, Prepare(n), q')
  {
  }

  lemma WriteStep(q: Queue, at: nat, bytes: seq<byte>, q': Queue)
    requires q'.max == q.max && at + |bytes| <= |q.output| && q'.input == q.input
    requires q'.output == q.output[..at] + bytes + q.output[at + |bytes|..]
    ensures Step(q, Write(at, bytes), q')
  {
  }

  lemma CommitStep(q: Queue, n: nat, q': Queue)
    requires q'.max == q.max && q'.output <= q.output[Min(n, |q.output|)..]
    requires q'.input == q.input + q.output[..Min(n, |q.output|)]
    ensures Step(q, Commit(n), q')
  {
  }

  lemma ConsumeStep(q: Queue, n: nat, q': Queue)
    requires q'.max == q.max && q'.input == q.input[Min(n, |q.input|)..]
    ensures Step(q, Consume(n), q')
    ensures n == 1 ==> Step(q, TakeChar, q')
  {
  }

  lemma PutCharStep(q: Queue, c: byte, q': Queue)
    requires q'.max == q.max && |q.input| < q.max && q'.input == q.input + [c]
    ensures Step(q, PutChar(c), q')
  {
  }

  // ---------------------------------------------------------------- runs

  /** The first n of the operations `ops` lead through the queues qs[0], ..., qs[n]. */
  ghost predicate IsRun(qs: seq<Queue>, ops: seq<Op>, n: nat) {
    n < |qs| && n <= |ops| && (n > 0 ==> IsRun(qs, ops, n - 1) && Step(qs[n - 1], ops[n - 1], qs[n]))
  }

  lemma {:induction false} RunPrefix(qs: seq<Queue>, q: Queue, ops: seq<Op>, n: nat)
    requires IsRun(qs, ops, n)
    ensures IsRun(qs + [q], ops, n)
  {
    if n > 0 {
      RunPrefix(qs, q, ops, n - 1);
    }
  }

  ghost predicate IsRunTo(qs: seq<Queue>, ops: seq<Op>, n: nat, first: Queue, last: Queue) {
    |qs| == n + 1 && IsRun(qs, ops, n) && qs[0] == first && qs[n] == last
  }

  lemma RunExtends(qs: seq<Queue>, ops: seq<Op>, n: nat, first: Queue, last: Queue, q: Queue)
    requires n < |ops| && IsRunTo(qs, ops, n, first, last) && Step(last, ops[n], q)
    ensures IsRunTo(qs + [q], ops, n + 1, first, q)
  {
    RunPrefix(qs, q, ops, n);
  }

  ghost function AllAdded(qs: seq<Queue>, ops: seq<Op>, n: nat): seq<byte>
    requires n <= |ops| && n <= |qs|
  {
    if n == 0 then [] else AllAdded(qs, ops, n - 1) + Added(qs[n - 1], ops[n - 1])
  }

  ghost function AllRemoved(qs: seq<Queue>, ops: seq<Op>, n: nat): seq<byte>
    requires n <= |ops| && n <= |qs|
  {
    if n == 0 then [] else AllRemoved(qs, ops, n - 1) + Removed(qs[n - 1], ops[n - 1])
  }

  lemma MoveAlong(start: seq<byte>, added: seq<byte>, removed: seq<byte>, now: seq<byte>,
                  a: seq<byte>, r: seq<byte>, next: seq<byte>)
    requires start + added == removed + now && r + next == now + a
    ensures start + (added + a) == (removed + r) + next
  {
    assert start + (added + a) == (start + added) + a;
    assert (removed + r) + next == removed + (r + next);
    assert (removed + now) + a == removed + (now + a);
  }

  lemma DropSame(x: seq<byte>, y: seq<byte>, a: seq<byte>)
    requires a + x == a + y
    ensures x == y
  {
    assert x == (a + x)[|a|..];
    assert y == (a + y)[|a|..];
  }

  /** First in, first out: at every point of every run, what was there at first and all
      that was appended is all that was removed followed by what is there now. */
  lemma {:induction false} RunIsFifo(qs: seq<Queue>, ops: seq<Op>, n: nat)
    requires IsRun(qs, ops, n)
    ensures qs[0].input + AllAdded(qs, ops, n) == AllRemoved(qs, ops, n) + qs[n].input
    ensures qs[n].max == qs[0].max
  {
    if n > 0 {
      var q, op := qs[n - 1], ops[n - 1];
      var added, removed := AllAdded(qs, ops, n - 1), AllRemoved(qs, ops, n - 1);
      RunIsFifo(qs, ops, n - 1);
      MoveAlong(qs[0].input, added, removed, q.input, Added(q, op), Removed(q, op), qs[n].input);
    }
  }

  // ---------------------------------------------------------------- any two implementations

  /** The prepare(x) that call i still builds on: the last one, when only writes lie between
      it and call i. */
  function LastPrepare(ops: seq<Op>, i: nat): (p: int)
    requires i <= |ops|
    ensures -1 <= p < i && (p >= 0 ==> ops[p].Prepare?)
  {
    if i == 0 then -1
    else if ops[i - 1].Prepare? then i - 1
    else if ops[i - 1].Write? then LastPrepare(ops, i - 1)
    else -1
  }

  /** Byte k of the prepared region was written since. */
  predicate Covered(ops: seq<Op>, i: nat, k: nat)
    requires i <= |ops|
  {
    i > 0 && ops[i - 1].Write? &&
    (ops[i - 1].at <= k < ops[i - 1].at + |ops[i - 1].bytes| || Covered(ops, i - 1, k))
  }

  /** Call i is made as documented: a write stays inside the prepared region of x bytes, a
      commit(n) has n <= x, and nothing but writes lies between. With `written`, the writes
      cover the n bytes. */
  ghost predicate CallOk(ops: seq<Op>, i: nat, written: bool)
    requires i < |ops|
  {
    var p := LastPrepare(ops, i);
    match ops[i]
    case Write(at, bytes) => p >= 0 && at + |bytes| <= ops[p].n
    case Commit(n) => p >= 0 && n <= ops[p].n && (written ==> forall k | 0 <= k < n :: Covered(ops, i, k))
    case _ => true
  }

  ghost predicate Disciplined(ops: seq<Op>, written: bool) {
    forall i | 0 <= i < |ops| :: CallOk(ops, i, written)
  }

  /** The output sequence stays as large as was asked for. */
  lemma {:induction false} StaysPrepared(qs: seq<Queue>, ops: seq<Op>, i: nat)
    requires IsRun(qs, ops, i) && LastPrepare(ops, i) >= 0
    ensures |qs[i].output| >= ops[LastPrepare(ops, i)].n
  {
    if !ops[i - 1].Prepare? {
      StaysPrepared(qs, ops, i - 1);
    }
  }

  /** A byte not written since the prepare is still what the space held then. */
  lemma {:induction false} Unwritten(qs: seq<Queue>, ops: seq<Op>, i: nat, k: nat)
    requires IsRun(qs, ops, i) && LastPrepare(ops, i) >= 0 && !Covered(ops, i, k)
    requires k < |qs[LastPrepare(ops, i) + 1].output|
    ensures k < |qs[i].output| && qs[i].output[k] == qs[LastPrepare(ops, i) + 1].output[k]
  {
    if !ops[i - 1].Prepare? {
      Unwritten(qs, ops, i - 1, k);
    }
  }

  /** Whatever the space held before, the bytes written since the prepare are the same. */
  lemma {:induction false} SameWritten(qs: seq<Queue>, rs: seq<Queue>, ops: seq<Op>, i: nat, k: nat)
    requires IsRun(qs, ops, i) && IsRun(rs, ops, i) && Covered(ops, i, k)
    requires k < |qs[i].output| && k < |rs[i].output|
    ensures qs[i].output[k] == rs[i].output[k]
  {
    if !(ops[i - 1].at <= k < ops[i - 1].at + |ops[i - 1].bytes|) {
      SameWritten(qs, rs, ops, i - 1, k);
    }
  }

  /** Byte k of the region prepared for call i agrees in two runs: it was written since the
      prepare, or the two spaces happened to hold the same byte when they were prepared. */
  ghost predicate Agreed(qs: seq<Queue>, rs: seq<Queue>, ops: seq<Op>, i: nat, k: nat)
    requires i <= |ops| && i < |qs| && i < |rs|
  {
    var p := LastPrepare(ops, i);
    Covered(ops, i, k) ||
    (p >= 0 && k < |qs[p + 1].output| && k < |rs[p + 1].output| && qs[p + 1].output[k] == rs[p + 1].output[k])
  }

  /** Call i, if it is a commit, commits bytes that agree. */
  ghost predicate CommitAgreed(qs: seq<Queue>, rs: seq<Queue>, ops: seq<Op>, i: nat)
    requires i < |ops| && i < |qs| && i < |rs|
  {
    ops[i].Commit? ==> forall k | 0 <= k < ops[i].n :: Agreed(qs, rs, ops, i, k)
  }

  lemma {:induction false} StaysAsPrepared(qs: seq<Queue>, ops: seq<Op>, i: nat)
    requires IsRun(qs, ops, i) && LastPrepare(ops, i) >= 0
    ensures IsRun(qs, ops, LastPrepare(ops, i) + 1)
    ensures |qs[LastPrepare(ops, i) + 1].output| >= ops[LastPrepare(ops, i)].n
  {
    RunUpTo(qs, ops, LastPrepare(ops, i) + 1, i);
  }

  /** A byte that agrees is one that is the same in both when it comes to call i. */
  lemma {:induction false} AgreedIsEqual(qs: seq<Queue>, rs: seq<Queue>, ops: seq<Op>, i: nat, k: nat)
    requires IsRun(qs, ops, i) && IsRun(rs, ops, i) && LastPrepare(ops, i) >= 0 && k < ops[LastPrepare(ops, i)].n
    ensures k < |qs[i].output| && k < |rs[i].output|
    ensures Agreed(qs, rs, ops, i, k) <==> qs[i].output[k] == rs[i].output[k]
  {
    StaysPrepared(qs, ops, i);
    StaysPrepared(rs, ops, i);
    if Covered(ops, i, k) {
      SameWritten(qs, rs, ops, i, k);
    } else {
      StaysAsPrepared(qs, ops, i);
      StaysAsPrepared(rs, ops, i);
      Unwritten(qs, ops, i, k);
      Unwritten(rs, ops, i, k);
    }
  }

  /** A documented call adds equally many bytes in both runs, and the same ones if and only
      if the bytes it commits agree. */
  lemma SameAdded(qs: seq<Queue>, rs: seq<Queue>, ops: seq<Op>, i: nat)
    requires i < |ops| && IsRun(qs, ops, i) && IsRun(rs, ops, i) && CallOk(ops, i, false)
    ensures |Added(qs[i], ops[i])| == |Added(rs[i], ops[i])|
    ensures Added(qs[i], ops[i]) == Added(rs[i], ops[i]) <==> CommitAgreed(qs, rs, ops, i)
  {
    if ops[i].Commit? {
      StaysPrepared(qs, ops, i);
      StaysPrepared(rs, ops, i);
      var n, x, y := ops[i].n, Added(qs[i], ops[i]), Added(rs[i], ops[i]);
      assert |x| == |y| == n;
      forall k | 0 <= k < n
        ensures Agreed(qs, rs, ops, i, k) <==> x[k] == y[k]
      {
        AgreedIsEqual(qs, rs, ops, i, k);
      }
    }
  }

  lemma StepSame(q: Queue, q': Queue, r: Queue, r': Queue, op: Op)
    requires Step(q, op, q') && Step(r, op, r') && q.input == r.input
    ensures q'.input == r'.input <==> Added(q, op) == Added(r, op)
  {
    if Added(q, op) == Added(r, op) {
      DropSame(q'.input, r'.input, Removed(q, op));
    } else if q'.input == r'.input {
      DropSame(Added(q, op), Added(r, op), q.input);
    }
  }

  lemma StepSameSize(q: Queue, q': Queue, r: Queue, r': Queue, op: Op)
    requires Step(q, op, q') && Step(r, op, r')
    requires |q.input| == |r.input| && |Added(q, op)| == |Added(r, op)|
    ensures |q'.input| == |r'.input|
  {
    assert |Removed(q, op)| + |q'.input| == |q.input| + |Added(q, op)|;
    assert |Removed(r, op)| + |r'.input| == |r.input| + |Added(r, op)|;
  }

  /** Two runs of the same documented calls, by any two implementations and whatever space
      they set aside, have input sequences of equal length throughout. */
  lemma {:induction false} SameSizes(qs: seq<Queue>, rs: seq<Queue>, ops: seq<Op>, i: nat)
    requires IsRun(qs, ops, i) && IsRun(rs, ops, i) && Disciplined(ops, false)
    requires |qs[0].input| == |rs[0].input| && qs[0].max == rs[0].max
    ensures |qs[i].input| == |rs[i].input| && qs[i].max == rs[i].max
    ensures forall n: nat :: Enabled(qs[i], Prepare(n)) <==> Enabled(rs[i], Prepare(n))
  {
    if i > 0 {
      SameSizes(qs, rs, ops, i - 1);
      assert CallOk(ops, i - 1, false);
      SameAdded(qs, rs, ops, i - 1);
      StepSameSize(qs[i - 1], qs[i], rs[i - 1], rs[i], ops[i - 1]);
    }
  }

  /** Main result on two implementations: given the same documented calls and the same input
      sequence at first, their input sequences are identical throughout if and only if every
      byte committed was written since its prepare, or was the same in both spaces then. */
  lemma {:induction false} SameContentsIff(qs: seq<Queue>, rs: seq<Queue>, ops: seq<Op>, n: nat)
    requires IsRun(qs, ops, n) && IsRun(rs, ops, n) && Disciplined(ops, false) && qs[0].input == rs[0].input
    ensures (forall i | 0 <= i <= n :: qs[i].input == rs[i].input) <==>
            (forall i | 0 <= i < n :: CommitAgreed(qs, rs, ops, i))
  {
    if n > 0 {
      SameContentsIff(qs, rs, ops, n - 1);
      assert CallOk(ops, n - 1, false);
      SameAdded(qs, rs, ops, n - 1);
      if qs[n - 1].input == rs[n - 1].input {
        StepSame(qs[n - 1], qs[n], rs[n - 1], rs[n], ops[n - 1]);
      }
    }
  }

  /** Writing the committed bytes is a stricter discipline, and it makes them agree. */
  lemma WrittenAgrees(qs: seq<Queue>, rs: seq<Queue>, ops: seq<Op>, n: nat)
    requires Disciplined(ops, true) && n <= |ops| && n < |qs| && n < |rs|
    ensures Disciplined(ops, false)
    ensures forall i | 0 <= i < n :: CommitAgreed(qs, rs, ops, i)
  {
    forall i | 0 <= i < |ops|
      ensures CallOk(ops, i, false) && (i < n ==> CommitAgreed(qs, rs, ops, i))
    {
      assert CallOk(ops, i, true);
    }
  }

  /** So when the committed bytes were written, the input sequences are identical. */
  lemma SameContents(qs: seq<Queue>, rs: seq<Queue>, ops: seq<Op>, n: nat)
    requires IsRun(qs, ops, n) && IsRun(rs, ops, n) && Disciplined(ops, true) && qs[0].input == rs[0].input
    ensures forall i | 0 <= i <= n :: qs[i].input == rs[i].input
  {
    WrittenAgrees(qs, rs, ops, n);
    SameContentsIff(qs, rs, ops, n);
  }

  /** The next documented call returns normally in both implementations or in neither, and
      only a prepare, or a character for which there is no room, can fail. */
  lemma NextCallAgrees(qs: seq<Queue>, rs: seq<Queue>, ops: seq<Op>, n: nat)
    requires n < |ops| && IsRun(qs, ops, n) && IsRun(rs, ops, n) && CallOk(ops, n, false)
    requires |qs[n].input| == |rs[n].input| && qs[n].max == rs[n].max
    ensures Enabled(qs[n], ops[n]) <==> Enabled(rs[n], ops[n])
    ensures !Enabled(qs[n], ops[n]) ==> ops[n].Prepare? || ops[n].PutChar?
  {
    if ops[n].Write? {
      StaysPrepared(qs, ops, n);
      StaysPrepared(rs, ops, n);
    }
  }

  lemma {:induction false} RunUpTo(qs: seq<Queue>, ops: seq<Op>, k: nat, n: nat)
    requires k <= n && IsRun(qs, ops, n)
    ensures IsRun(qs, ops, k)
    ensures k < n ==> Enabled(qs[k], ops[k])
    decreases n - k
  {
    if k < n {
      RunUpTo(qs, ops, k + 1, n);
    }
  }

  /** One implementation goes on until a call throws. Another that does the same, or stops
      earlier for a reason of its own, does not get further; if it stopped because a call
      threw, both stopped at that call, which asked for too much. */
  lemma RunsStopTogether(qs: seq<Queue>, rs: seq<Queue>, ops: seq<Op>, m: nat, n: nat)
    requires Disciplined(ops, false)
    requires IsRun(qs, ops, m) && IsRun(rs, ops, n) && (n < |ops| ==> !Enabled(rs[n], ops[n]))
    requires |qs[0].input| == |rs[0].input| && qs[0].max == rs[0].max
    ensures m <= n && |qs[m].input| == |rs[m].input|
    ensures m < |ops| && !Enabled(qs[m], ops[m]) ==> m == n && (ops[m].Prepare? || ops[m].PutChar?)
  {
    var k := Min(m, n);
    RunUpTo(qs, ops, k, m);
    RunUpTo(rs, ops, k, n);
    SameSizes(qs, rs, ops, k);
    if k < |ops| {
      assert CallOk(ops, k, false);
      NextCallAgrees(qs, rs, ops, k);
    }
    assert k == m;
  }
}
