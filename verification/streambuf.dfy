/**
  basic_streambuf: the byte queue over one growing array, with the get and put positions
  of std::streambuf (section 27.6.3 of ISO C++11) as offsets into it.
 */
module Streambuf {
  import opened Buffers
  import opened ByteQueue

  const BUFFER_DELTA: nat := 128
  const INT_MAX: nat := 0x7FFF_FFFF
  const PTRDIFF_MAX: nat := 0x7FFF_FFFF_FFFF_FFFF
  const EOF := -1

  function ToChar(c: int): byte { (c % 256) as byte }
  function NotEof(c: int): (r: int)
    ensures r != EOF && (c != EOF ==> r == c)
  {
    if c == EOF then 0 else c
  }

  lemma ToCharOf(c: byte)
    ensures ToChar(c as int) == c
  {
  }

  /** `after` is `before`, possibly grown, with the bytes from..to moved to its start. */
  ghost predicate Moved(before: seq<byte>, after: seq<byte>, from: nat, to: nat) {
    && from <= to <= |before| <= |after|
    && (forall i {:trigger after[i]} | 0 <= i < |before| :: after[i] == before[if i < to - from then from + i else i])
  }

  lemma MovedPrefix(before: seq<byte>, after: seq<byte>, from: nat, to: nat)
    requires Moved(before, after, from, to)
    ensures after[0..to - from] == before[from..to]
  {
  }

  /** Every byte equals the one `period` places before it. */
  ghost predicate Periodic(s: seq<byte>, period: nat) {
    forall i | 0 <= i < |s| - period :: s[i] == s[i + period]
  }

  /** A reserve that throws after moving the contents, with the positions left alone,
      spoils data() unless the bytes happen to repeat with the distance of the move. */
  lemma MovedInput(before: seq<byte>, after: seq<byte>, from: nat, to: nat)
    requires Moved(before, after, from, to)
    ensures after[from..to] == before[from..to] <==> Periodic(before[from..to], from)
  {
    var x, y := before[from..to], after[from..to];
    assert forall i | 0 <= i < |x| :: y[i] == if i + from < |x| then x[i + from] else x[i];
    if x == y {
      forall i | 0 <= i < |x| - from
        ensures x[i] == x[i + from]
      {
        assert y[i] == x[i + from];
      }
    } else {
      var i :| 0 <= i < |x| && x[i] != y[i];
      assert x[i] != x[i + from];
    }
  }

  /** memmove(a, a + from, length). */
  method Memmove(a: array<byte>, from: nat, length: nat)
    requires from + length <= a.Length
    modifies a
    ensures Moved(old(a[..]), a[..], from, from + length)
  {
    forall i | 0 <= i < length {
      a[i] := a[from + i];
    }
  }

  /** `after` is `before` with `bytes` written over it from position t on. */
  ghost predicate Patched(before: seq<byte>, after: seq<byte>, t: nat, bytes: seq<byte>) {
    && |after| == |before| && t + |bytes| <= |before|
    && forall i {:trigger after[i]} | 0 <= i < |before| ::
         after[i] == if t <= i < t + |bytes| then bytes[i - t] else before[i]
  }

  lemma PatchedBytes(before: seq<byte>, after: seq<byte>, t: nat, bytes: seq<byte>)
    requires Patched(before, after, t, bytes)
    ensures after[t..t + |bytes|] == bytes
  {
  }

  lemma PatchedSlices(before: seq<byte>, after: seq<byte>, g: nat, p: nat, e: nat, at: nat, bytes: seq<byte>)
    requires g <= p && p + at + |bytes| <= e <= |before| && Patched(before, after, p + at, bytes)
    ensures after[g..p] == before[g..p]
    ensures after[p..e] == before[p..e][..at] + bytes + before[p..e][at + |bytes|..]
  {
    var x, y := after[p..e], before[p..e];
    var z := y[..at] + bytes + y[at + |bytes|..];
    assert |x| == |z|;
    forall i | 0 <= i < |x|
      ensures x[i] == z[i]
    {
      assert x[i] == after[p + i];
    }
  }

  /** The first k elements behind b continue what lies before it. */
  lemma SplitSlice(s: seq<byte>, from: nat, b: nat, to: nat, k: nat)
    requires from <= b <= b + k <= to <= |s|
    ensures s[from..b + k] == s[from..b] + s[b..to][..k]
  {
  }

  /** The positions of the areas in the array, without the end of the get area. */
  datatype Layout = Layout(gptr: nat, pptr: nat, epptr: nat) {
    function Size(): nat { if gptr <= pptr then pptr - gptr else 0 }

    /** The length of the array: there is one element at least. */
    function Length(): nat { Max(epptr, 1) }

    function AfterPrepare(n: nat): Layout {
      if pptr + n <= epptr then this else Layout(0, Size(), Max(epptr, Size() + n))
    }

    function AfterCommit(n: nat): Layout { this.(pptr := pptr + n) }

    /** A full put area is extended by 128 elements, or as many as the limit allows. */
    function AfterOverflow(maxSize: nat): Layout {
      var room := if Size() <= maxSize then maxSize - Size() else 0;
      (if pptr < epptr then this else AfterPrepare(Min(128, room))).AfterCommit(1)
    }
  }

  class BasicStreambuf {
    const maxSize: nat
    var buffer: array<byte>
    var gptr: nat
    var egptr: nat
    var pptr: nat
    var epptr: nat

    /** The class invariant. The beginning of the get area, eback, is always 0. */
    ghost predicate Valid()
      reads this
    {
      && gptr <= egptr <= pptr <= epptr <= maxSize
      && buffer.Length == Max(epptr, 1)
    }

    /** data(). */
    function Input(): (s: seq<byte>)
      requires Valid()
      reads this, buffer
      ensures |s| == Size() <= maxSize
    {
      buffer[gptr..pptr]
    }

    function Size(): nat
      requires Valid()
      reads this
    {
      pptr - gptr
    }

    /** The rest of the put area: disjoint from data() and inside the array. */
    function Output(): (s: seq<byte>)
      requires Valid()
      reads this, buffer
      ensures Size() + |s| <= maxSize
    {
      buffer[pptr..epptr]
    }

    ghost function Places(): Layout
      reads this
    {
      Layout(gptr, pptr, epptr)
    }

    ghost function View(): Queue
      requires Valid()
      reads this, buffer
    {
      Queue(Input(), Output(), maxSize)
    }

    constructor (maximumSize: nat)
      ensures Valid() && fresh(buffer)
      ensures maxSize == maximumSize && Input() == [] && pptr == gptr == 0 && epptr == Min(maximumSize, BUFFER_DELTA)
    {
      var pend := Min(maximumSize, BUFFER_DELTA);
      maxSize := maximumSize;
      buffer := new byte[Max(pend, 1)](_ => 0);
      gptr, egptr := 0, 0;
      pptr, epptr := 0, pend;
    }

    /** Make room for n more bytes. It throws exactly when the contents and n more bytes
        exceed the limit, whatever the shift and the slack in the array; then the positions
        are as before, but the contents may have been moved already. */
    method Reserve(n: nat) returns (ok: bool)
      requires Valid()
      modifies this, buffer
      ensures Valid() && (buffer == old(buffer) || fresh(buffer))
      ensures ok <==> old(Size()) + n <= maxSize
      ensures ok ==> Input() == old(Input()) && |Output()| >= n
      ensures n <= old(epptr - pptr) ==>
                Output() == old(Output()) && gptr == old(gptr) && epptr == old(epptr) && buffer == old(buffer)
      ensures ok && n > old(epptr - pptr) ==> gptr == 0 && egptr == pptr && epptr == Max(old(epptr), pptr + n)
      ensures !ok ==> buffer == old(buffer)
      ensures !ok ==> gptr == old(gptr) && egptr == old(egptr) && pptr == old(pptr) && epptr == old(epptr)
      ensures n > old(epptr - pptr) ==> Moved(old(buffer[..]), buffer[..], old(gptr), old(pptr))
    {
      if n <= epptr - pptr {
        ok := true;
      } else {
        ok := ShiftAndGrow(n);
        MovedPrefix(old(buffer[..]), buffer[..], old(gptr), old(pptr));
      }
    }

    /** The rest of reserve: shift the contents to the start of the array, then grow it. */
    method ShiftAndGrow(n: nat) returns (ok: bool)
      requires Valid() && n > epptr - pptr
      modifies this, buffer
      ensures Valid() && (buffer == old(buffer) || fresh(buffer))
      ensures ok <==> old(Size()) + n <= maxSize
      ensures ok ==> gptr == 0 && egptr == pptr == old(Size()) && epptr == Max(old(epptr), pptr + n)
      ensures !ok ==> buffer == old(buffer)
      ensures !ok ==> gptr == old(gptr) && egptr == old(egptr) && pptr == old(pptr) && epptr == old(epptr)
      ensures Moved(old(buffer[..]), buffer[..], old(gptr), old(pptr))
    {
      var pnext := Shift();
      var pend := epptr;
      if n > pend - pnext {
        ok := n <= maxSize && pnext <= maxSize - n;
        if !ok {
          return;
        }
        pend := pnext + n;
        Grow(Max(pend, 1));
      }
      gptr, egptr := 0, pnext;
      pptr, epptr := pnext, pend;
      ok := true;
    }

    /** buffer_.resize(length), for a length that does not shrink it: the elements are kept,
        and with them whatever was moved among them. */
    method Grow(length: nat)
      requires length >= buffer.Length
      modifies this`buffer
      ensures fresh(buffer) && buffer.Length == length
      ensures forall i | 0 <= i < old(buffer.Length) :: buffer[i] == old(buffer[i])
      ensures forall b, from, to | Moved(b, old(buffer[..]), from, to) :: Moved(b, buffer[..], from, to)
    {
      var grown := new byte[length](_ => 0);
      forall i | 0 <= i < buffer.Length {
        grown[i] := buffer[i];
      }
      buffer := grown;
    }

    /** Shift the existing contents to the start of the array. */
    method Shift() returns (pnext: nat)
      requires Valid()
      modifies buffer
      ensures pnext == Size()
      ensures Moved(old(buffer[..]), buffer[..], gptr, pptr)
    {
      pnext := pptr;
      if gptr > 0 {
        pnext := pnext - gptr;
        Memmove(buffer, gptr, pnext);
      }
    }

    /** prepare: the n bytes from the returned offset on belong to the put area. */
    method Prepare(n: nat) returns (ok: bool, at: nat)
      requires Valid()
      modifies this, buffer
      ensures Valid() && (buffer == old(buffer) || fresh(buffer))
      ensures ok <==> old(Size()) + n <= maxSize
      ensures ok ==> Input() == old(Input()) && |Output()| >= n
      ensures ok ==> at == pptr && at + n <= epptr && egptr <= at
      ensures ok ==> Places() == old(Places()).AfterPrepare(n)
      ensures n <= old(epptr - pptr) ==>
                Output() == old(Output()) && gptr == old(gptr) && epptr == old(epptr) && buffer == old(buffer)
      ensures n > old(epptr - pptr) ==> Moved(old(buffer[..]), buffer[..], old(gptr), old(pptr))
      ensures !ok ==> gptr == old(gptr) && egptr == old(egptr) && pptr == old(pptr) && epptr == old(epptr)
      ensures !ok ==> (Input() == old(Input()) <==> Periodic(old(Input()), old(gptr)))
    {
      ok := Reserve(n);
      at := pptr;
      if !ok {
        MovedInput(old(buffer[..]), buffer[..], gptr, pptr);
        assert buffer[..][gptr..pptr] == Input();
        assert old(buffer[..])[gptr..pptr] == old(Input());
      }
    }

    /** A client fills part of the region that prepare returned. */
    method Write(at: nat, bytes: seq<byte>)
      requires Valid() && at + |bytes| <= |Output()|
      modifies buffer
      ensures Valid()
      ensures Input() == old(Input())
      ensures Output() == old(Output())[..at] + bytes + old(Output())[at + |bytes|..]
    {
      ghost var before := buffer[..];
      forall i | 0 <= i < |bytes| {
        buffer[pptr + at + i] := bytes[i];
      }
      PatchedSlices(before, buffer[..], gptr, pptr, epptr, at, bytes);
    }

    method Commit(n: nat)
      requires Valid() && Min(n, |Output()|) <= INT_MAX
      modifies this
      ensures Valid() && buffer == old(buffer)
      ensures Input() == old(Input()) + old(Output())[..Min(n, old(epptr - pptr))]
      ensures Output() == old(Output())[Min(n, old(epptr - pptr))..]
      ensures egptr == pptr && gptr == old(gptr) && epptr == old(epptr)
    {
      var k := Min(n, epptr - pptr);
      SplitSlice(buffer[..], gptr, pptr, epptr, k);
      Bump(k);
    }

    /** pbump(k), and the get area up to there. */
    method Bump(k: nat)
      requires Valid() && pptr + k <= epptr
      modifies this`pptr, this`egptr
      ensures Valid() && pptr == egptr == old(pptr) + k && buffer[..] == old(buffer[..])
    {
      pptr := pptr + k;
      egptr := pptr;
    }

    method Consume(n: nat)
      requires Valid() && Min(n, Size()) <= INT_MAX && n <= PTRDIFF_MAX
      modifies this
      ensures Valid() && buffer == old(buffer) && pptr == old(pptr) && epptr == old(epptr)
      ensures Input() == old(Input())[Min(n, old(Size()))..]
      ensures Output() == old(Output())
    {
      Skip(n);
    }

    /** The get area up to the put position, then gbump of what there is of n. */
    method Skip(n: nat)
      requires Valid()
      modifies this`egptr, this`gptr
      ensures Valid() && gptr == old(gptr) + Min(n, old(Size())) && buffer[..] == old(buffer[..])
      ensures Output() == old(Output())
    {
      if egptr < pptr {
        egptr := pptr;
      }
      var k := n;
      if gptr + n > pptr {
        k := pptr - gptr;
      }
      gptr := gptr + k;
    }

    method Underflow() returns (c: int)
      requires Valid()
      modifies this
      ensures Valid() && buffer == old(buffer) && View() == old(View()) && gptr == old(gptr)
      ensures c == if Input() == [] then EOF else Input()[0] as int
      ensures c != EOF ==> gptr < egptr
    {
      if gptr < pptr {
        egptr := pptr;
        c := buffer[gptr] as int;
      } else {
        c := EOF;
      }
    }

    /** overflow: it appends one character, or throws exactly when the queue is full. When the
        put area is full it makes room for 128 characters, or as many as the limit allows. */
    method Overflow(c: int) returns (ok: bool, r: int)
      requires Valid()
      modifies this, buffer
      ensures Valid() && (buffer == old(buffer) || fresh(buffer))
      ensures c == EOF ==> ok && r == NotEof(c) && View() == old(View())
      ensures c != EOF ==> (ok <==> old(Size()) < maxSize)
      ensures c != EOF && ok ==> r == c && Input() == old(Input()) + [ToChar(c)]
      ensures c != EOF && ok ==> Places() == old(Places()).AfterOverflow(maxSize)
      ensures !ok ==> View() == old(View())
    {
      if c == EOF {
        return true, NotEof(c);
      }
      ok := true;
      if pptr == epptr {
        ok := Extend();
      }
      if ok {
        Append(ToChar(c));
      }
      r := if ok then c else EOF;
    }

    /** Make room in a full put area; it throws exactly when the queue is full. */
    method Extend() returns (ok: bool)
      requires Valid() && pptr == epptr
      modifies this, buffer
      ensures Valid() && (buffer == old(buffer) || fresh(buffer))
      ensures ok <==> old(Size()) < maxSize
      ensures ok ==> Input() == old(Input()) && pptr < epptr
      ensures ok ==> Places() == old(Places()).AfterPrepare(Min(128, maxSize - old(Size())))
      ensures !ok ==> View() == old(View())
    {
      var size := pptr - gptr;
      if size < maxSize && maxSize - size < BUFFER_DELTA {
        ok := Reserve(maxSize - size);
      } else {
        ok := Reserve(BUFFER_DELTA);
      }
      if !ok {
        assert gptr == 0 && buffer[..] == old(buffer[..]);
      }
    }

    /** *pptr() = c; pbump(1). */
    method Append(c: byte)
      requires Valid() && pptr < epptr
      modifies buffer, this`pptr
      ensures Valid() && Input() == old(Input()) + [c] && Places() == old(Places()).AfterCommit(1)
    {
      buffer[pptr] := c;
      assert buffer[gptr..pptr] == old(Input());
      pptr := pptr + 1;
    }

    /** sputc of std::streambuf. */
    method Sputc(c: byte) returns (ok: bool)
      requires Valid()
      modifies this, buffer
      ensures Valid() && (buffer == old(buffer) || fresh(buffer))
      ensures ok <==> old(Size()) < maxSize
      ensures ok ==> Input() == old(Input()) + [c] && Places() == old(Places()).AfterOverflow(maxSize)
      ensures !ok ==> View() == old(View())
    {
      if pptr < epptr {
        Append(c);
        ok := true;
      } else {
        ToCharOf(c);
        var r;
        ok, r := Overflow(c as int);
      }
    }

    /** sbumpc of std::streambuf, with its default uflow. */
    method Sbumpc() returns (c: int)
      requires Valid()
      modifies this
      ensures Valid() && buffer == old(buffer)
      ensures c == if old(Input()) == [] then EOF else old(Input())[0] as int
      ensures Input() == old(Input())[Min(1, old(Size()))..]
    {
      if gptr < egptr {
        c := buffer[gptr] as int;
        gptr := gptr + 1;
      } else {
        c := Underflow();
        if c != EOF {
          gptr := gptr + 1;
        }
      }
    }
  }

  /** A prepare for which there is room. */
  method PrepareRoom(sb: BasicStreambuf, n: nat)
    requires sb.Valid() && sb.Size() + n <= sb.maxSize
    modifies sb, sb.buffer
    ensures sb.Valid() && (sb.buffer == old(sb.buffer) || fresh(sb.buffer))
    ensures sb.Input() == old(sb.Input()) && |sb.Output()| >= n
    ensures sb.Places() == old(sb.Places()).AfterPrepare(n)
  {
    var ok, at := sb.Prepare(n);
  }

  /** Bytes written at the start of the put area and committed are appended. */
  method WriteAndCommit(sb: BasicStreambuf, bytes: seq<byte>)
    requires sb.Valid() && |bytes| <= |sb.Output()| && |bytes| <= INT_MAX
    modifies sb, sb.buffer
    ensures sb.Valid() && sb.buffer == old(sb.buffer) && sb.Places() == old(sb.Places()).AfterCommit(|bytes|)
    ensures sb.Input() == old(sb.Input()) + bytes
  {
    ghost var output := sb.Output();
    sb.Write(0, bytes);
    WrittenFirst(output, bytes, sb.Output());
    sb.Commit(|bytes|);
  }

  lemma WrittenFirst(before: seq<byte>, bytes: seq<byte>, after: seq<byte>)
    requires |bytes| <= |before| && after == before[..0] + bytes + before[0 + |bytes|..]
    ensures |after| == |before| && after[..|bytes|] == bytes
  {
  }

  /** A stream buffer with limit 3 that holds "AB", after "xAB" was written and "x" consumed. */
  method ConsumedOne() returns (sb: BasicStreambuf)
    ensures fresh(sb) && sb.Valid() && fresh(sb.buffer) && sb.maxSize == 3
    ensures sb.gptr == 1 && sb.pptr == 3 && sb.Input() == [65, 66]
  {
    sb := new BasicStreambuf(3);
    PrepareRoom(sb, 3);
    WriteAndCommit(sb, [120, 65, 66]);
    assert sb.Input() == [120, 65, 66];
    sb.Consume(1);
  }

  /** Asking it for too much turns "AB" into "BB". */
  method ThrowSpoilsData() returns (threw: bool, data: seq<byte>)
    ensures threw && data == [66, 66]
  {
    var sb := ConsumedOne();
    ghost var before := sb.buffer[..];
    assert before[2] == sb.Input()[1];
    var ok, at := sb.Prepare(5);
    threw := !ok;
    data := sb.Input();
    assert data == [sb.buffer[1], sb.buffer[2]];
    assert sb.buffer[..][1] == before[2] && sb.buffer[..][2] == before[2];
  }

  /** The counts that commit and consume can carry: they are cast to int after the cut to
      what there is, and consume first adds its count to a pointer. */
  predicate Carried(q: Queue, op: Op) {
    match op
    case Commit(n) => Min(n, |q.output|) <= INT_MAX
    case Consume(n) => Min(n, |q.input|) <= INT_MAX && n <= PTRDIFF_MAX
    case _ => true
  }

  /** Every call that moves less than two gigabytes is carried. */
  lemma SmallCountsAreCarried(q: Queue, op: Op)
    requires op.Commit? ==> op.n < 0x8000_0000 || |q.output| < 0x8000_0000
    requires op.Consume? ==> op.n < 0x8000_0000 || (|q.input| < 0x8000_0000 && op.n < 0x8000_0000_0000_0000)
    ensures Carried(q, op)
  {
  }

  method ApplyPrepare(sb: BasicStreambuf, n: nat) returns (ok: bool)
    requires sb.Valid()
    modifies sb, sb.buffer
    ensures sb.Valid() && (sb.buffer == old(sb.buffer) || fresh(sb.buffer))
    ensures ok <==> Enabled(old(sb.View()), Prepare(n))
    ensures ok ==> Step(old(sb.View()), Prepare(n), sb.View())
  {
    ghost var q := sb.View();
    var at;
    ok, at := sb.Prepare(n);
    if ok {
      PrepareStep(q, n, sb.View());
    }
  }

  method ApplyWrite(sb: BasicStreambuf, at: nat, bytes: seq<byte>) returns (ok: bool)
    requires sb.Valid()
    modifies sb.buffer
    ensures sb.Valid()
    ensures ok <==> Enabled(old(sb.View()), Write(at, bytes))
    ensures ok ==> Step(old(sb.View()), Write(at, bytes), sb.View())
    ensures !ok ==> sb.View() == old(sb.View())
  {
    ghost var q := sb.View();
    ok := at + |bytes| <= sb.epptr - sb.pptr;
    if ok {
      sb.Write(at, bytes);
      WriteStep(q, at, bytes, sb.View());
    }
  }

  method ApplyCommit(sb: BasicStreambuf, n: nat) returns (ok: bool)
    requires sb.Valid()
    modifies sb
    ensures sb.Valid() && sb.buffer == old(sb.buffer)
    ensures ok <==> Carried(old(sb.View()), Commit(n))
    ensures ok ==> Step(old(sb.View()), Commit(n), sb.View())
    ensures !ok ==> sb.View() == old(sb.View())
  {
    ghost var q := sb.View();
    ok := Min(n, sb.epptr - sb.pptr) <= INT_MAX;
    if ok {
      sb.Commit(n);
      CommitStep(q, n, sb.View());
    }
  }

  method ApplyConsume(sb: BasicStreambuf, n: nat) returns (ok: bool)
    requires sb.Valid()
    modifies sb
    ensures sb.Valid() && sb.buffer == old(sb.buffer)
    ensures ok <==> Carried(old(sb.View()), Consume(n))
    ensures ok ==> Step(old(sb.View()), Consume(n), sb.View())
    ensures !ok ==> sb.View() == old(sb.View())
  {
    ghost var q := sb.View();
    ok := Min(n, sb.Size()) <= INT_MAX && n <= PTRDIFF_MAX;
    if ok {
      sb.Consume(n);
      ConsumeStep(q, n, sb.View());
    }
  }

  method ApplyChar(sb: BasicStreambuf, op: Op) returns (ok: bool)
    requires sb.Valid() && (op.PutChar? || op.TakeChar?)
    modifies sb, sb.buffer
    ensures sb.Valid() && (sb.buffer == old(sb.buffer) || fresh(sb.buffer))
    ensures ok <==> Enabled(old(sb.View()), op)
    ensures ok ==> Step(old(sb.View()), op, sb.View())
    ensures !ok ==> sb.View() == old(sb.View())
  {
    ghost var q := sb.View();
    if op.PutChar? {
      ok := sb.Sputc(op.c);
      if ok {
        PutCharStep(q, op.c, sb.View());
      }
    } else {
      var c := sb.Sbumpc();
      ConsumeStep(q, 1, sb.View());
      ok := true;
    }
  }

  /** One call by a client; `ok` is false when it throws, and for a write outside the output
      sequence or a count that cannot be carried, which are not attempted. */
  method Apply(sb: BasicStreambuf, op: Op) returns (ok: bool)
    requires sb.Valid()
    modifies sb, sb.buffer
    ensures sb.Valid() && (sb.buffer == old(sb.buffer) || fresh(sb.buffer))
    ensures ok <==> Enabled(old(sb.View()), op) && Carried(old(sb.View()), op)
    ensures ok ==> Step(old(sb.View()), op, sb.View())
    ensures !ok && !op.Prepare? ==> sb.View() == old(sb.View())
  {
    match op {
      case Prepare(n) => ok := ApplyPrepare(sb, n);
      case Write(at, bytes) => ok := ApplyWrite(sb, at, bytes);
      case Commit(n) => ok := ApplyCommit(sb, n);
      case Consume(n) => ok := ApplyConsume(sb, n);
      case _ => ok := ApplyChar(sb, op);
    }
  }

  /** A client performs `ops`, up to the first call that throws or whose count cannot be
      carried. Whatever they are, the calls that returned form a run of the queue, so no
      byte is lost, repeated or reordered by any shift or regrowth. */
  method Run(sb: BasicStreambuf, ops: seq<Op>) returns (done: nat, ghost qs: seq<Queue>)
    requires sb.Valid()
    modifies sb, sb.buffer
    ensures sb.Valid() && done <= |ops|
    ensures IsRun(qs, ops, done) && qs[0] == old(sb.View())
    ensures done == |ops| || !ops[done].Prepare? ==> qs[done] == sb.View()
    ensures done < |ops| ==> !Enabled(qs[done], ops[done]) || !Carried(qs[done], ops[done])
    ensures qs[0].input + AllAdded(qs, ops, done) == AllRemoved(qs, ops, done) + qs[done].input
  {
    ghost var q := sb.View();
    done, qs := 0, [q];
    var ok := true;
    while done < |ops| && ok
      invariant sb.Valid() && done <= |ops| && (sb.buffer == old(sb.buffer) || fresh(sb.buffer))
      invariant IsRunTo(qs, ops, done, old(sb.View()), q)
      invariant !ok ==> done < |ops| && !(Enabled(q, ops[done]) && Carried(q, ops[done]))
      invariant ok || !ops[done].Prepare? ==> q == sb.View()
      decreases ok, |ops| - done
    {
      ok := Apply(sb, ops[done]);
      if ok {
        RunExtends(qs, ops, done, old(sb.View()), q, sb.View());
        q := sb.View();
        qs, done := qs + [q], done + 1;
      }
    }
    RunIsFifo(qs, ops, done);
  }

  /** read_size_helper: the preferred size for reading. `capacity` is that of the vector,
      at least its length. Neither subtraction can wrap around. */
  function ReadSize(size: nat, capacity: nat, maxSize: nat, limit: nat): nat
    requires size <= capacity && size <= maxSize
  {
    Min(Max(512, capacity - size), Min(limit, maxSize - size))
  }

  /** n is what a read asks for: within the limit and the room, and within the free capacity
      or 512 bytes, whichever is more; and as much as these allow. */
  predicate IsAsked(n: nat, size: nat, capacity: nat, limit: nat, room: nat) {
    && n <= limit && n <= room && (n <= 512 || size + n <= capacity)
    && (n < limit && n < room ==> n >= 512 && size + n >= capacity)
  }

  /** Preparing the preferred size never throws, and it is zero only when nothing may be
      read or the queue is full. */
  method PrepareForRead(sb: BasicStreambuf, capacity: nat, limit: nat) returns (n: nat)
    requires sb.Valid() && sb.buffer.Length <= capacity
    modifies sb, sb.buffer
    ensures sb.Valid() && (sb.buffer == old(sb.buffer) || fresh(sb.buffer))
    ensures IsAsked(n, old(sb.Size()), capacity, limit, sb.maxSize - old(sb.Size()))
    ensures |sb.Output()| >= n && sb.Input() == old(sb.Input())
    ensures n == 0 <==> limit == 0 || old(sb.Size()) == sb.maxSize
  {
    n := ReadSize(sb.Size(), capacity, sb.maxSize, limit);
    PrepareRoom(sb, n);
  }
}
