/**
  dynamic_string_buffer and dynamic_vector_buffer: the same queue kept in a string or a
  vector. The two classes have the same members with the same bodies; only the type of
  the container differs, so one class stands for both.
 */
module DynamicBuffers {
  import opened Buffers
  import opened ByteQueue
  import opened Streambuf

  /** resize: cut, or extend with zeros. */
  function Resize(s: seq<byte>, n: nat): (r: seq<byte>)
    ensures |r| == n && r[..Min(n, |s|)] == s[..Min(n, |s|)]
    ensures forall i | |s| <= i < n :: r[i] == 0
  {
    if n <= |s| then s[..n] else s + seq(n - |s|, _ => 0 as byte)
  }

  class DynamicBuffer {
    const maxSize: nat
    var storage: seq<byte>
    var size: nat

    ghost predicate Valid()
      reads this
    {
      size <= |storage|
    }

    function Input(): (s: seq<byte>)
      requires Valid()
      reads this
      ensures |s| == size
    {
      storage[..size]
    }

    function Output(): seq<byte>
      requires Valid()
      reads this
    {
      storage[size..]
    }

    ghost function View(): Queue
      requires Valid()
      reads this
    {
      Queue(Input(), Output(), maxSize)
    }

    /** Existing data becomes the input sequence, even when it exceeds the limit. */
    constructor (data: seq<byte>, maximumSize: nat)
      ensures Valid() && Input() == data && Output() == [] && maxSize == maximumSize
    {
      storage, size, maxSize := data, |data|, maximumSize;
    }

    method Prepare(n: nat) returns (ok: bool)
      requires Valid()
      modifies this
      ensures Valid() && Input() == old(Input())
      ensures ok <==> size + n <= maxSize
      ensures ok ==> |Output()| == n && forall i | old(|Output()|) <= i < n :: Output()[i] == 0
      ensures !ok ==> storage == old(storage)
    {
      if size > maxSize || maxSize - size < n {
        return false;
      }
      storage := Resize(storage, size + n);
      ok := true;
      assert Input() == storage[..Min(size + n, old(|storage|))][..size];
    }

    method Write(at: nat, bytes: seq<byte>)
      requires Valid() && at + |bytes| <= |Output()|
      modifies this
      ensures Valid() && Input() == old(Input())
      ensures Output() == old(Output())[..at] + bytes + old(Output())[at + |bytes|..]
    {
      storage := storage[..size + at] + bytes + storage[size + at + |bytes|..];
    }

    method Commit(n: nat)
      requires Valid()
      modifies this
      ensures Valid() && Output() == []
      ensures Input() == old(Input()) + old(Output())[..Min(n, old(|Output()|))]
    {
      size := size + Min(n, |storage| - size);
      storage := Resize(storage, size);
    }

    method Consume(n: nat)
      requires Valid()
      modifies this
      ensures Valid() && Output() == old(Output())
      ensures Input() == old(Input())[Min(n, old(size))..]
    {
      var k := Min(n, size);
      storage := storage[k..];
      size := size - k;
    }
  }

  /** The calls that a dynamic buffer has. */
  predicate IsCall(op: Op) { !op.PutChar? && !op.TakeChar? }

  method ApplyDynamic(b: DynamicBuffer, op: Op) returns (ok: bool)
    requires b.Valid() && IsCall(op)
    modifies b
    ensures b.Valid()
    ensures ok <==> Enabled(old(b.View()), op)
    ensures ok ==> Step(old(b.View()), op, b.View())
    ensures !ok ==> b.View() == old(b.View())
  {
    ghost var q := b.View();
    ok := true;
    match op {
      case Prepare(n) =>
        ok := b.Prepare(n);
        if ok {
          PrepareStep(q, n, b.View());
        }
      case Write(at, bytes) =>
        ok := at + |bytes| <= |b.storage| - b.size;
        if ok {
          b.Write(at, bytes);
          WriteStep(q, at, bytes, b.View());
        }
      case Commit(n) =>
        b.Commit(n);
        CommitStep(q, n, b.View());
      case Consume(n) =>
        b.Consume(n);
        ConsumeStep(q, n, b.View());
      case _ =>
        assert false;
    }
  }

  /** The calls of a client up to the first that throws; they are a run of the queue. */
  method RunDynamic(b: DynamicBuffer, ops: seq<Op>) returns (done: nat, ghost qs: seq<Queue>)
    requires b.Valid() && forall i | 0 <= i < |ops| :: IsCall(ops[i])
    modifies b
    ensures b.Valid() && done <= |ops|
    ensures IsRun(qs, ops, done) && qs[0] == old(b.View()) && qs[done] == b.View()
    ensures done < |ops| ==> !Enabled(qs[done], ops[done])
  {
    ghost var q := b.View();
    done, qs := 0, [q];
    while done < |ops|
      invariant b.Valid() && done <= |ops|
      invariant q == b.View() && IsRunTo(qs, ops, done, old(b.View()), q)
    {
      var ok := ApplyDynamic(b, ops[done]);
      if !ok {
        break;
      }
      RunExtends(qs, ops, done, old(b.View()), q, b.View());
      q := b.View();
      qs, done := qs + [q], done + 1;
    }
  }

  /** Two runs of the same documented calls, one of which stops at a call that throws or that
      it cannot carry, the other only at one that throws. */
  ghost predicate RunApart(qs: seq<Queue>, rs: seq<Queue>, ops: seq<Op>, m: nat, n: nat) {
    && Disciplined(ops, false) && (forall i | 0 <= i < |ops| :: IsCall(ops[i]))
    && IsRun(qs, ops, m) && (m < |ops| ==> !Enabled(qs[m], ops[m]) || !Carried(qs[m], ops[m]))
    && IsRun(rs, ops, n) && (n < |ops| ==> !Enabled(rs[n], ops[n]))
    && qs[0].input == rs[0].input && qs[0].max == rs[0].max
  }

  lemma WhereTheyStop(qs: seq<Queue>, rs: seq<Queue>, ops: seq<Op>, m: nat, n: nat)
    requires RunApart(qs, rs, ops, m, n)
    ensures m <= n
    ensures m < |ops| ==>
              || !Carried(qs[m], ops[m])
              || (m == n && ops[m].Prepare? && !Enabled(qs[m], ops[m]) && !Enabled(rs[m], ops[m]))
    ensures n < |ops| ==> ops[n].Prepare? && !Enabled(rs[n], ops[n])
  {
    RunsStopTogether(qs, rs, ops, m, n);
    if n < |ops| {
      assert CallOk(ops, n, false);
      NextCallAgrees(rs, rs, ops, n);
      assert IsCall(ops[n]);
    }
  }

  lemma WhatTheyHold(qs: seq<Queue>, rs: seq<Queue>, ops: seq<Op>, m: nat, n: nat)
    requires RunApart(qs, rs, ops, m, n) && m <= n
    ensures forall i | 0 <= i <= m :: |qs[i].input| == |rs[i].input|
    ensures (forall i | 0 <= i <= m :: qs[i].input == rs[i].input) <==>
            (forall i | 0 <= i < m :: CommitAgreed(qs, rs, ops, i))
    ensures Disciplined(ops, true) ==> forall i | 0 <= i <= m :: qs[i].input == rs[i].input
  {
    RunUpTo(rs, ops, m, n);
    forall i | 0 <= i <= m
      ensures |qs[i].input| == |rs[i].input|
    {
      RunUpTo(qs, ops, i, m);
      RunUpTo(rs, ops, i, m);
      SameSizes(qs, rs, ops, i);
    }
    SameContentsIff(qs, rs, ops, m);
    if Disciplined(ops, true) {
      SameContents(qs, rs, ops, m);
    }
  }

  /** The stream buffer and the dynamic buffer, given the same documented calls. They stop at
      the same prepare, one that exceeds the limit, unless the stream buffer meets a count it
      cannot carry. Up to there their input sequences have the same size, and are identical
      if and only if each byte committed was written since its prepare, or was the same in
      both spaces then. */
  method RunBoth(sb: BasicStreambuf, b: DynamicBuffer, ops: seq<Op>)
    returns (done: nat, done': nat, ghost qs: seq<Queue>, ghost rs: seq<Queue>)
    requires sb.Valid() && b.Valid() && sb.maxSize == b.maxSize && sb.Input() == b.Input()
    requires Disciplined(ops, false) && forall i | 0 <= i < |ops| :: IsCall(ops[i])
    modifies sb, sb.buffer, b
    ensures sb.Valid() && b.Valid() && done <= done' <= |ops|
    ensures IsRun(qs, ops, done) && qs[0] == old(sb.View()) && IsRun(rs, ops, done') && rs[0] == old(b.View())
    ensures rs[done'] == b.View() && (done == |ops| || !ops[done].Prepare? ==> qs[done] == sb.View())
    ensures done < |ops| ==>
              || !Carried(qs[done], ops[done])
              || (done == done' && ops[done].Prepare? && !Enabled(qs[done], ops[done]) && !Enabled(rs[done], ops[done]))
    ensures done' < |ops| ==> ops[done'].Prepare? && !Enabled(rs[done'], ops[done'])
    ensures forall i | 0 <= i <= done :: |qs[i].input| == |rs[i].input|
    ensures (forall i | 0 <= i <= done :: qs[i].input == rs[i].input) <==>
            (forall i | 0 <= i < done :: CommitAgreed(qs, rs, ops, i))
    ensures Disciplined(ops, true) ==> forall i | 0 <= i <= done :: qs[i].input == rs[i].input
  {
    done, qs := Run(sb, ops);
    done', rs := RunDynamic(b, ops);
    WhereTheyStop(qs, rs, ops, done, done');
    WhatTheyHold(qs, rs, ops, done, done');
  }

  /** Calls with which sizes agree and contents do not: the last commit is documented, but
      nothing was written for it. */
  function UnwrittenCalls(): seq<Op> {
    [Op.Prepare(1), Op.Write(0, [65]), Op.Commit(1), Op.Consume(1), Op.Prepare(128), Op.Commit(1)]
  }

  lemma UnwrittenIsDisciplined()
    ensures Disciplined(UnwrittenCalls(), false) && !Disciplined(UnwrittenCalls(), true)
  {
    var ops := UnwrittenCalls();
    assert LastPrepare(ops, 1) == 0 && LastPrepare(ops, 2) == 0 && LastPrepare(ops, 5) == 4;
    assert !Covered(ops, 5, 0);
    assert !CallOk(ops, 5, true);
  }

  /** The first four of these calls leave a stream buffer empty, with the byte consumed still
      in its array. */
  method UsedStreambuf() returns (sb: BasicStreambuf)
    ensures fresh(sb) && sb.Valid() && fresh(sb.buffer) && sb.maxSize == 1000
    ensures sb.gptr == sb.pptr == 1 && sb.epptr == 128 && sb.buffer[0] == 65
  {
    sb := new BasicStreambuf(1000);
    PrepareRoom(sb, 1);
    assert sb.Places() == Layout(0, 0, 128);
    WriteAndCommit(sb, [65]);
    assert sb.Places() == Layout(0, 1, 128);
    assert sb.buffer[0] == sb.Input()[0] == 65;
    sb.Consume(1);
  }

  /** After all of them it has committed that byte again ... */
  method UnwrittenInStreambuf() returns (input: seq<byte>)
    ensures input == [65]
  {
    var sb := UsedStreambuf();
    var ok, at := sb.Prepare(128);
    assert sb.Output()[0] == sb.buffer[..][0] == 65;
    sb.Commit(1);
    input := sb.Input();
  }

  /** ... and the dynamic buffer a zero. */
  method UnwrittenInDynamicBuffer() returns (input: seq<byte>)
    ensures input == [0]
  {
    var b := new DynamicBuffer([], 1000);
    var ok := b.Prepare(1);
    b.Write(0, [65]);
    b.Commit(1);
    b.Consume(1);
    ok := b.Prepare(128);
    b.Commit(1);
    input := b.Input();
  }
}
