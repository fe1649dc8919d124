/**
  basic_socket_streambuf: a stream buffer that flushes its put area to a socket and fills
  its get area from it. The socket and the clock are sequences of outcomes, one for each
  pass through the loops of overflow and underflow; when a sequence is used up the call
  has not returned yet. The ghost fields record what went over the wire.
 */
module SocketStreambuf {
  import opened Buffers
  import opened Streambuf

  const BUFFER_SIZE: nat := 512
  const PUTBACK_MAX: nat := 8

  datatype Error = NoError | WouldBlock | TryAgain | TimedOut | EndOfFile | OtherError(code: int)

  /** One pass: is the expiry time past; what does send say; if it would block, what does
      waiting for the socket say. The kernel takes at most what it is offered. */
  datatype SendAttempt = SendAttempt(expired: bool, send: Sending, poll: int, pollError: Error)
  datatype Sending = Sent(n: nat) | SendFailed(error: Error)

  datatype ReceiveAttempt = ReceiveAttempt(expired: bool, receive: Receiving, poll: int, pollError: Error)
  datatype Receiving = Received(data: seq<byte>) | ReceiveFailed(error: Error)

  datatype Outcome = Returned(c: int) | Pending

  predicate Retriable(e: Error) { e == WouldBlock || e == TryAgain }

  /** Neither a timeout nor a fatal error. */
  predicate Harmless(a: SendAttempt) {
    !a.expired && (if a.send.Sent? then a.send.n > 0 else Retriable(a.send.error) && a.poll >= 0)
  }

  /** The error that a harmful attempt leaves. A send that takes nothing counts as a
      failure, although no error is reported with it. */
  function FailureOf(a: SendAttempt): Error {
    if a.expired then TimedOut
    else if a.send.Sent? then NoError
    else if !Retriable(a.send.error) then a.send.error
    else a.pollError
  }

  /** How many bytes the kernel is ready to take in the first i attempts. */
  function Offered(attempts: seq<SendAttempt>, i: nat): nat
    requires i <= |attempts|
  {
    if i == 0 then 0 else Offered(attempts, i - 1) + if attempts[i - 1].send.Sent? then attempts[i - 1].send.n else 0
  }

  lemma {:induction false} OfferedGrows(attempts: seq<SendAttempt>, i: nat, k: nat)
    requires i <= k <= |attempts|
    ensures Offered(attempts, i) <= Offered(attempts, k)
  {
    if i < k {
      OfferedGrows(attempts, i, k - 1);
    }
  }

  /** The number of attempts before the first harmful one. */
  function Calm(attempts: seq<SendAttempt>): (k: nat)
    ensures k <= |attempts| && (forall j | 0 <= j < k :: Harmless(attempts[j]))
    ensures k < |attempts| ==> !Harmless(attempts[k])
  {
    if attempts == [] || !Harmless(attempts[0]) then 0 else 1 + Calm(attempts[1..])
  }

  /** How many bytes the kernel is ready to take before anything goes wrong. A block gets
      through exactly when it is no longer than that. */
  function Capacity(attempts: seq<SendAttempt>): nat { Offered(attempts, Calm(attempts)) }

  /** What comes of sending n bytes: success, failure, or nothing yet. */
  function SendResult(attempts: seq<SendAttempt>, n: nat): Outcome {
    if Capacity(attempts) >= n then Returned(0)
    else if Calm(attempts) < |attempts| then Returned(EOF)
    else Pending
  }

  /** What lets a send go on: bytes were taken, or the socket would block and a wait for it
      succeeds. */
  predicate SendGoesOn(a: SendAttempt) {
    !a.expired &&
    match a.send
    case Sent(n) => n > 0
    case SendFailed(WouldBlock) => a.poll >= 0
    case SendFailed(TryAgain) => a.poll >= 0
    case SendFailed(_) => false
  }

  /** The first i attempts let it go on, and take a block of n bytes. */
  ghost predicate SendIsThrough(attempts: seq<SendAttempt>, n: nat, i: nat) {
    i <= |attempts| && Offered(attempts, i) >= n && forall j | 0 <= j < i :: SendGoesOn(attempts[j])
  }

  /** A block of n bytes gets through if and only if attempts that let it go on take it. */
  lemma SendSucceedsIff(attempts: seq<SendAttempt>, n: nat)
    ensures SendResult(attempts, n) == Returned(0) <==> exists i: nat :: SendIsThrough(attempts, n, i)
  {
    var k := Calm(attempts);
    assert Offered(attempts, k) >= n ==> SendIsThrough(attempts, n, k);
    forall i: nat | SendIsThrough(attempts, n, i)
      ensures Offered(attempts, k) >= n
    {
      assert k < |attempts| ==> !SendGoesOn(attempts[k]);
      OfferedGrows(attempts, i, k);
    }
  }

  /** The first attempt that does not let it go on, before the block is through, ends it, and
      says why. */
  lemma SendFailsWith(attempts: seq<SendAttempt>, k: nat, n: nat)
    requires k < |attempts| && !SendGoesOn(attempts[k]) && forall j | 0 <= j < k :: SendGoesOn(attempts[j])
    requires Offered(attempts, k) < n
    ensures SendResult(attempts, n) == Returned(EOF)
    ensures var a, error := attempts[k], FailureOf(attempts[Calm(attempts)]);
            if a.expired then error == TimedOut
            else
              match a.send
              case Sent(_) => error == NoError
              case SendFailed(WouldBlock) => error == a.pollError
              case SendFailed(TryAgain) => error == a.pollError
              case SendFailed(e) => error == e
  {
    assert Calm(attempts) == k;
  }

  /** As long as all attempts let it go on, and the block is not through, it waits. */
  lemma SendWaits(attempts: seq<SendAttempt>, n: nat)
    requires (forall j | 0 <= j < |attempts| :: SendGoesOn(attempts[j])) && Offered(attempts, |attempts|) < n
    ensures SendResult(attempts, n) == Pending
  {
    assert Calm(attempts) == |attempts|;
  }

  /** Patient attempts never fail and take all of n bytes in the end. */
  ghost predicate Patient(attempts: seq<SendAttempt>, n: nat) {
    (forall i | 0 <= i < |attempts| :: Harmless(attempts[i])) && Offered(attempts, |attempts|) >= n
  }

  /** A receive after which underflow tries again. */
  predicate Retried(a: ReceiveAttempt) {
    !a.expired && a.receive.ReceiveFailed? && Retriable(a.receive.error) && a.poll >= 0
  }

  predicate Brings(a: ReceiveAttempt) { !a.expired && a.receive.Received? && a.receive.data != [] }

  /** The bytes that a receive delivers, at most as many as fit behind the putback zone. */
  function BytesOf(a: ReceiveAttempt): seq<byte> {
    if Brings(a) then a.receive.data[..Min(|a.receive.data|, BUFFER_SIZE - PUTBACK_MAX)] else []
  }

  /** The error that a receive leaves after which underflow does not try again. */
  function ReceiveErrorOf(a: ReceiveAttempt): Error {
    if a.expired then TimedOut
    else if a.receive.Received? then (if a.receive.data == [] then EndOfFile else NoError)
    else if !Retriable(a.receive.error) then a.receive.error
    else a.pollError
  }

  /** The number of attempts before the first one that underflow does not follow by another. */
  function Idle(attempts: seq<ReceiveAttempt>): (k: nat)
    ensures k <= |attempts| && (forall j | 0 <= j < k :: Retried(attempts[j]))
    ensures k < |attempts| ==> !Retried(attempts[k])
  {
    if attempts == [] || !Retried(attempts[0]) then 0 else 1 + Idle(attempts[1..])
  }

  /** The bytes that the first conclusive receive delivers. */
  function Delivery(attempts: seq<ReceiveAttempt>): seq<byte> {
    if Idle(attempts) < |attempts| then BytesOf(attempts[Idle(attempts)]) else []
  }

  /** The get area with which a read begins. */
  function Filled(area: seq<byte>, attempts: seq<ReceiveAttempt>): seq<byte> {
    if area != [] then area else Delivery(attempts)
  }

  /** The bytes that are received for it. */
  function Drawn(area: seq<byte>, attempts: seq<ReceiveAttempt>): seq<byte> {
    if area != [] then [] else Delivery(attempts)
  }

  /** What underflow reports: nothing yet, the first byte delivered, or eof. */
  function Report(attempts: seq<ReceiveAttempt>): Outcome {
    if Idle(attempts) == |attempts| then Pending
    else if Delivery(attempts) == [] then Returned(EOF)
    else Returned(Delivery(attempts)[0] as int)
  }

  /** What makes underflow try again: the socket would block and a wait for it succeeds. */
  predicate ReceiveGoesOn(a: ReceiveAttempt) {
    !a.expired &&
    match a.receive
    case Received(_) => false
    case ReceiveFailed(WouldBlock) => a.poll >= 0
    case ReceiveFailed(TryAgain) => a.poll >= 0
    case ReceiveFailed(_) => false
  }

  /** The first attempt that does not make it try again decides what underflow delivers,
      reports and leaves as the error. */
  lemma ReceiveEndsWith(attempts: seq<ReceiveAttempt>, k: nat)
    requires k < |attempts| && !ReceiveGoesOn(attempts[k]) && forall j | 0 <= j < k :: ReceiveGoesOn(attempts[j])
    ensures var a, error := attempts[k], ReceiveErrorOf(attempts[Idle(attempts)]);
            var nothing := Report(attempts) == Returned(EOF) && Delivery(attempts) == [];
            if a.expired then nothing && error == TimedOut
            else
              match a.receive
              case Received(data) =>
                if data == [] then nothing && error == EndOfFile
                else
                  && Report(attempts) == Returned(data[0] as int) && error == NoError
                  && Delivery(attempts) == data[..Min(|data|, 504)]
              case ReceiveFailed(WouldBlock) => nothing && error == a.pollError
              case ReceiveFailed(TryAgain) => nothing && error == a.pollError
              case ReceiveFailed(e) => nothing && error == e
  {
    assert Idle(attempts) == k;
  }

  /** As long as all attempts make it try again, it waits. */
  lemma ReceiveWaits(attempts: seq<ReceiveAttempt>)
    requires forall j | 0 <= j < |attempts| :: ReceiveGoesOn(attempts[j])
    ensures Report(attempts) == Pending && Delivery(attempts) == []
  {
    assert Idle(attempts) == |attempts|;
  }

  /** Whether a character can be written, with n in a put area of the given length. */
  predicate PutFits(n: nat, length: nat, attempts: seq<SendAttempt>) {
    n < length || Capacity(attempts) >= Max(n, 1)
  }

  /** The put area after a character was written. */
  function AfterPut(area: seq<byte>, length: nat, c: byte): seq<byte> {
    if |area| < length then area + [c] else if length == 0 then [] else [c]
  }

  class BasicSocketStreambuf {
    var putBuffer: array<byte>   // of length 0 in unbuffered mode
    var pptr: nat                // pbase is the start of putBuffer, epptr its end
    var getBuffer: array<byte>
    var gptr: nat
    var egptr: nat
    var ec: Error
    ghost var wire: seq<byte>      // all bytes accepted by the kernel
    ghost var received: seq<byte>  // all bytes delivered by the kernel

    ghost predicate Valid()
      reads this
    {
      && (putBuffer.Length == 0 || putBuffer.Length == BUFFER_SIZE)
      && pptr <= putBuffer.Length
      && getBuffer.Length == BUFFER_SIZE
      && PUTBACK_MAX <= gptr <= egptr <= BUFFER_SIZE
      && putBuffer != getBuffer
    }

    /** The characters written and not yet handed to the kernel. */
    function PutArea(): seq<byte>
      requires Valid()
      reads this, putBuffer
    {
      putBuffer[..pptr]
    }

    /** The characters received and not yet read. */
    function GetArea(): seq<byte>
      requires Valid()
      reads this, getBuffer
    {
      getBuffer[gptr..egptr]
    }

    /** The constructor, with init_buffers. */
    constructor ()
      ensures Valid() && fresh(putBuffer) && fresh(getBuffer)
      ensures putBuffer.Length == getBuffer.Length == 512 && gptr == 8 && PutArea() == [] && GetArea() == []
      ensures wire == [] && received == []
    {
      putBuffer := new byte[BUFFER_SIZE](_ => 0);
      getBuffer := new byte[BUFFER_SIZE](_ => 0);
      pptr, gptr, egptr := 0, PUTBACK_MAX, PUTBACK_MAX;
      ec, wire, received := NoError, [], [];
    }

    /** What overflow(c) has to send: the put area, or the character itself. */
    function ToSend(c: int): seq<byte>
      requires Valid()
      reads this, putBuffer
    {
      if putBuffer.Length > 0 then PutArea() else if c == EOF then [] else [ToChar(c)]
    }

    /** One pass through the loop of overflow, with `rest` bytes still to be sent. */
    method SendOnce(a: SendAttempt, rest: nat) returns (failed: bool, bytes: nat)
      requires rest > 0
      modifies this`ec
      ensures failed <==> !Harmless(a)
      ensures bytes == if !failed && a.send.Sent? then Min(a.send.n, rest) else 0
      ensures failed ==> ec == FailureOf(a)
    {
      bytes := 0;
      if a.expired {
        ec := TimedOut;
        return true, 0;
      }
      match a.send {
        case Sent(n) =>
          ec := NoError;
          bytes := Min(n, rest);
          failed := bytes == 0;
        case SendFailed(error) =>
          ec := error;
          failed := !Retriable(ec);
          if !failed {
            ec := if a.poll < 0 then a.pollError else NoError;
            failed := a.poll < 0;
          }
      }
    }

    /** The loop of overflow: send `block`, through partial sends and retries. The attempts
        decide how much of it goes over the wire, and whether all of it does. */
    method Send(block: seq<byte>, attempts: seq<SendAttempt>) returns (r: Outcome, ghost sent: nat)
      modifies this`ec, this`wire
      ensures sent == Min(|block|, Capacity(attempts)) && wire == old(wire) + block[..sent]
      ensures r == SendResult(attempts, |block|)
      ensures r == Returned(EOF) ==> ec == FailureOf(attempts[Calm(attempts)])
    {
      var output := Buffer(0, |block|);
      sent := 0;
      var i: nat := 0;
      var failed := false;
      ghost var k := Calm(attempts);
      while output.size > 0 && !failed && i < |attempts|
        invariant sent <= |block| && output == Buffer(sent, |block| - sent)
        invariant wire == old(wire) + block[..sent]
        invariant i <= k && sent == Min(|block|, Offered(attempts, i))
        invariant failed ==> i == k < |attempts| && sent < |block| && ec == FailureOf(attempts[k])
        decreases !failed, |attempts| - i
      {
        var bytes;
        failed, bytes := SendOnce(attempts[i], output.size);
        if !failed {
          wire := wire + block[output.data..output.data + bytes];
          assert block[..sent] + block[sent..sent + bytes] == block[..sent + bytes];
          sent := sent + bytes;
          output := output.Plus(bytes);
          i := i + 1;
        }
      }
      OfferedGrows(attempts, i, k);
      r := if output.size == 0 then Returned(0) else if failed then Returned(EOF) else Pending;
    }

    /** overflow. If it fails, the put area is as it was and the wire has gained a proper
        prefix of what was to be sent, in unbuffered mode nothing. Otherwise all of it is
        on the wire, and the character is too, or is alone in the put area. */
    method Overflow(c: int, attempts: seq<SendAttempt>) returns (r: Outcome, ghost sent: nat)
      requires Valid()
      modifies this`ec, this`wire, this`pptr, putBuffer
      ensures Valid() && sent == Min(|old(ToSend(c))|, Capacity(attempts))
      ensures wire == old(wire) + old(ToSend(c))[..sent]
      ensures var result := SendResult(attempts, |old(ToSend(c))|);
              r == if result == Returned(0) then Returned(NotEof(c)) else result
      ensures Capacity(attempts) < |old(ToSend(c))| ==> PutArea() == old(PutArea())
      ensures r == Returned(EOF) ==> ec == FailureOf(attempts[Calm(attempts)])
      ensures Capacity(attempts) >= |old(ToSend(c))| ==>
                && PutArea() == (if putBuffer.Length == 0 || c == EOF then [] else [ToChar(c)])
                && wire + PutArea() == old(wire + PutArea()) + (if c == EOF then [] else [ToChar(c)])
    {
      if putBuffer.Length == 0 && c == EOF {
        assert wire == wire + ToSend(c)[..0];
        return Returned(NotEof(c)), 0;
      }
      var block := ToSend(c);
      r, sent := Send(block, attempts);
      if r != Returned(0) {
        return;
      }
      assert block[..sent] == block;
      if putBuffer.Length > 0 {
        pptr := 0;
        if c == EOF {
          return Returned(NotEof(c)), sent;
        }
        putBuffer[pptr] := ToChar(c);
        pptr := pptr + 1;
      }
      r := Returned(c);
    }

    method Sync(attempts: seq<SendAttempt>) returns (r: Outcome, ghost sent: nat)
      requires Valid()
      modifies this`ec, this`wire, this`pptr, putBuffer
      ensures Valid() && sent == Min(|old(PutArea())|, Capacity(attempts))
      ensures wire == old(wire) + old(PutArea())[..sent]
      ensures r == SendResult(attempts, |old(PutArea())|)
      ensures r == Returned(EOF) ==> ec == FailureOf(attempts[Calm(attempts)])
      ensures PutArea() == if r == Returned(0) then [] else old(PutArea())
    {
      r, sent := Overflow(EOF, attempts);
    }

    /** setbuf(0, 0) turns buffering off, when nothing is pending. */
    method SetBuf(isNull: bool) returns (ok: bool)
      requires Valid()
      modifies this`ec, this`wire, this`pptr, this`putBuffer
      ensures Valid() && wire == old(wire) && PutArea() == old(PutArea())
      ensures ok <==> isNull && old(PutArea()) == []
      ensures if ok then putBuffer.Length == 0 && fresh(putBuffer) else putBuffer == old(putBuffer)
    {
      if pptr == 0 && isNull {
        putBuffer := new byte[0];
        pptr := 0;
        var r, sent := Sync([]);
        return true;
      }
      return false;
    }

    /** sputc of std::streambuf: the character goes to the put area, or through overflow when
        that is full or there is none. If it cannot, what was accepted of the put area is
        on the wire, and still in the put area too. */
    method Sputc(c: byte, attempts: seq<SendAttempt>) returns (r: Outcome, ghost sent: nat)
      requires Valid()
      modifies this`ec, this`wire, this`pptr, putBuffer
      ensures Valid()
      ensures r == Returned(c as int) <==> PutFits(old(pptr), putBuffer.Length, attempts)
      ensures r == Returned(c as int) ==>
                && PutArea() == AfterPut(old(PutArea()), putBuffer.Length, c)
                && wire + PutArea() == old(wire + PutArea()) + [c]
      ensures r != Returned(c as int) ==>
                && PutArea() == old(PutArea()) && sent == Min(old(pptr), Capacity(attempts))
                && wire == old(wire) + PutArea()[..sent]
    {
      sent := 0;
      if pptr < putBuffer.Length {
        ghost var area := PutArea();
        putBuffer[pptr] := c;
        pptr := pptr + 1;
        assert PutArea() == area + [c];
        assert wire + (area + [c]) == (wire + area) + [c];
        r := Returned(c as int);
      } else {
        r, sent := Overflow(c as int, attempts);
      }
    }

    /** A receive into the get buffer behind the putback zone, at most as much as fits. */
    method Fill(data: seq<byte>)
      requires Valid() && data != []
      modifies this`received, this`gptr, this`egptr, getBuffer
      ensures Valid() && gptr == PUTBACK_MAX
      ensures GetArea() == data[..Min(|data|, BUFFER_SIZE - PUTBACK_MAX)]
      ensures received == old(received) + GetArea()
    {
      var bytes := Min(|data|, BUFFER_SIZE - PUTBACK_MAX);
      ghost var before := getBuffer[..];
      forall k | 0 <= k < bytes {
        getBuffer[PUTBACK_MAX + k] := data[k];
      }
      PatchedBytes(before, getBuffer[..], PUTBACK_MAX, data[..bytes]);
      gptr, egptr := PUTBACK_MAX, PUTBACK_MAX + bytes;
      received := received + data[..bytes];
    }

    /** One pass through the loop of underflow. */
    method ReceiveOnce(a: ReceiveAttempt) returns (again: bool)
      requires Valid() && gptr == egptr
      modifies this`ec, this`received, this`gptr, this`egptr, getBuffer
      ensures Valid() && (again <==> Retried(a))
      ensures GetArea() == BytesOf(a) && received == old(received) + BytesOf(a)
      ensures if Brings(a) then gptr == PUTBACK_MAX else gptr == egptr
      ensures !again ==> ec == ReceiveErrorOf(a)
    {
      again := false;
      if a.expired {
        ec := TimedOut;
        return;
      }
      match a.receive {
        case Received(data) =>
          ec := NoError;
          if |data| == 0 {
            ec := EndOfFile;
          } else {
            Fill(data);
          }
        case ReceiveFailed(error) =>
          ec := error;
          if Retriable(ec) {
            ec := if a.poll < 0 then a.pollError else NoError;
            again := a.poll >= 0;
          }
      }
    }

    /** underflow, called when the get area is exhausted. The new get area is what the first
        conclusive receive delivers, and that receive decides the result and the error. */
    method Underflow(attempts: seq<ReceiveAttempt>) returns (r: Outcome)
      requires Valid()
      modifies this`ec, this`received, this`gptr, this`egptr, getBuffer
      ensures Valid()
      ensures old(GetArea()) != [] ==>
                r == Returned(EOF) && GetArea() == old(GetArea()) && received == old(received) && ec == old(ec)
      ensures old(GetArea()) == [] ==>
                && r == Report(attempts)
                && GetArea() == Delivery(attempts) && received == old(received) + Delivery(attempts)
                && (GetArea() != [] ==> gptr == PUTBACK_MAX)
                && (r.Returned? ==> ec == ReceiveErrorOf(attempts[Idle(attempts)]))
    {
      if gptr != egptr {
        assert GetArea() != [];
        return Returned(EOF);
      }
      var i: nat := 0;
      var again := true;
      ghost var k := Idle(attempts);
      while again && i < |attempts|
        invariant Valid() && i <= k + (if again then 0 else 1) <= |attempts|
        invariant again ==> gptr == egptr && received == old(received)
        invariant !again ==>
                    && i == k + 1 && GetArea() == BytesOf(attempts[k]) && received == old(received) + GetArea()
                    && (GetArea() != [] ==> gptr == PUTBACK_MAX) && ec == ReceiveErrorOf(attempts[k])
        decreases again, |attempts| - i
      {
        again := ReceiveOnce(attempts[i]);
        i := i + 1;
      }
      if again {
        r := Pending;
      } else {
        r := if gptr == egptr then Returned(EOF) else Returned(getBuffer[gptr] as int);
      }
    }

    /** sbumpc of std::streambuf, with its default uflow: the first character of the get area,
        which is filled first when it is empty. */
    method Sbumpc(attempts: seq<ReceiveAttempt>) returns (r: Outcome)
      requires Valid()
      modifies this`ec, this`received, this`gptr, this`egptr, getBuffer
      ensures Valid()
      ensures var filled := Filled(old(GetArea()), attempts);
              && r == (if filled == [] then Report(attempts) else Returned(filled[0] as int))
              && GetArea() == (if filled == [] then [] else filled[1..])
      ensures received == old(received) + Drawn(old(GetArea()), attempts)
      ensures old(GetArea()) == [] && r.Returned? ==> ec == ReceiveErrorOf(attempts[Idle(attempts)])
    {
      if gptr < egptr {
        ghost var area := GetArea();
        assert area[0] == getBuffer[gptr];
        r := Returned(getBuffer[gptr] as int);
        gptr := gptr + 1;
        assert GetArea() == area[1..];
      } else {
        r := Underflow(attempts);
        if r.Returned? && r.c != EOF {
          gptr := gptr + 1;
        }
      }
    }
  }

  // ---------------------------------------------------------------- runs

  datatype Call = Put(c: byte, attempts: seq<SendAttempt>) | Flush(attempts: seq<SendAttempt>) | Unbuffer

  function Written(call: Call): seq<byte> { if call.Put? then [call.c] else [] }

  /** The characters written by the first n calls. */
  function Chars(calls: seq<Call>, n: nat): seq<byte>
    requires n <= |calls|
  {
    if n == 0 then [] else Chars(calls, n - 1) + Written(calls[n - 1])
  }

  lemma CharsNext(start: seq<byte>, calls: seq<Call>, n: nat)
    requires n < |calls|
    ensures start + Chars(calls, n) + Written(calls[n]) == start + Chars(calls, n + 1)
  {
  }

  /** Neither a timeout nor a fatal error, and everything is taken in the end. */
  ghost predicate Unhindered(call: Call) { call.Unbuffer? || Patient(call.attempts, BUFFER_SIZE) }

  /** Whether a call succeeds, with n characters in a put area of the given length. */
  predicate Succeeds(call: Call, n: nat, length: nat) {
    match call
    case Put(c, attempts) => PutFits(n, length, attempts)
    case Flush(attempts) => Capacity(attempts) >= n
    case Unbuffer => true
  }

  lemma UnhinderedSucceeds(call: Call, n: nat, length: nat)
    requires Unhindered(call) && n <= BUFFER_SIZE
    ensures Succeeds(call, n, length)
  {
  }

  /** The put area, and its length, after a call that succeeded. */
  function AfterCall(area: seq<byte>, length: nat, call: Call): (seq<byte>, nat) {
    match call
    case Put(c, attempts) => (AfterPut(area, length, c), length)
    case Flush(attempts) => ([], length)
    case Unbuffer => (area, if area == [] then 0 else length)
  }

  /** The same after n calls. */
  function AfterCalls(area: seq<byte>, length: nat, calls: seq<Call>, n: nat): (seq<byte>, nat)
    requires n <= |calls|
  {
    if n == 0 then (area, length)
    else
      var before := AfterCalls(area, length, calls, n - 1);
      AfterCall(before.0, before.1, calls[n - 1])
  }

  /** The bytes that a call which fails has sent of the put area. */
  function SentInVain(call: Call, area: seq<byte>): seq<byte> {
    if call.Unbuffer? then [] else area[..Min(|area|, Capacity(call.attempts))]
  }

  method Perform(sb: BasicSocketStreambuf, call: Call) returns (ok: bool)
    requires sb.Valid()
    modifies sb`ec, sb`wire, sb`pptr, sb`putBuffer, sb.putBuffer
    ensures sb.Valid() && (sb.putBuffer == old(sb.putBuffer) || fresh(sb.putBuffer))
    ensures ok <==> Succeeds(call, old(sb.pptr), old(sb.putBuffer.Length))
    ensures ok ==>
              && (sb.PutArea(), sb.putBuffer.Length) == AfterCall(old(sb.PutArea()), old(sb.putBuffer.Length), call)
              && sb.wire + sb.PutArea() == old(sb.wire + sb.PutArea()) + Written(call)
    ensures !ok ==>
              && sb.PutArea() == old(sb.PutArea()) && sb.putBuffer.Length == old(sb.putBuffer.Length)
              && sb.wire == old(sb.wire) + SentInVain(call, sb.PutArea())
  {
    ghost var area, sent := sb.PutArea(), 0;
    var r;
    match call {
      case Put(c, attempts) =>
        r, sent := sb.Sputc(c, attempts);
        ok := r == Returned(c as int);
      case Flush(attempts) =>
        r, sent := sb.Sync(attempts);
        ok := r == Returned(0);
        assert ok ==> area[..sent] == area;
      case Unbuffer =>
        var done := sb.SetBuf(true);
        ok := true;
    }
  }

  /** After n calls, wire `w` and put area together are all that was written, in order, and
      the calls decide how it is divided. */
  ghost predicate HasWritten(start: seq<byte>, first: seq<byte>, length: nat, calls: seq<Call>, n: nat,
                             w: seq<byte>, area: seq<byte>, length': nat)
  {
    && n <= |calls| && w + area == start + Chars(calls, n)
    && (area, length') == AfterCalls(first, length, calls, n)
  }

  lemma HasWrittenNext(start: seq<byte>, first: seq<byte>, length: nat, calls: seq<Call>, n: nat,
                       w: seq<byte>, area: seq<byte>, length': nat, w': seq<byte>, area': seq<byte>, length'': nat)
    requires HasWritten(start, first, length, calls, n, w, area, length') && n < |calls|
    requires w' + area' == w + area + Written(calls[n]) && (area', length'') == AfterCall(area, length', calls[n])
    ensures HasWritten(start, first, length, calls, n + 1, w', area', length'')
  {
    CharsNext(start, calls, n);
  }

  /** Character writes, flushes and switches to unbuffered mode, up to the first call that
      fails, which is the first that cannot succeed. What the calls before it wrote is on
      the wire or in the put area; the call that failed has sent part of the put area in
      vain. */
  method RunWrites(sb: BasicSocketStreambuf, calls: seq<Call>) returns (done: nat, ghost w: seq<byte>)
    requires sb.Valid()
    modifies sb`ec, sb`wire, sb`pptr, sb`putBuffer, sb.putBuffer
    ensures sb.Valid() && done <= |calls|
    ensures HasWritten(old(sb.wire + sb.PutArea()), old(sb.PutArea()), old(sb.putBuffer.Length), calls, done,
                       w, sb.PutArea(), sb.putBuffer.Length)
    ensures sb.wire == if done == |calls| then w else w + SentInVain(calls[done], sb.PutArea())
    ensures done < |calls| ==> !Succeeds(calls[done], sb.pptr, sb.putBuffer.Length) && !Unhindered(calls[done])
  {
    ghost var start, first, length := sb.wire + sb.PutArea(), sb.PutArea(), sb.putBuffer.Length;
    done, w := 0, sb.wire;
    assert start + Chars(calls, 0) == start;
    var ok := true;
    while done < |calls| && ok
      invariant sb.Valid() && (sb.putBuffer == old(sb.putBuffer) || fresh(sb.putBuffer))
      invariant HasWritten(start, first, length, calls, done, w, sb.PutArea(), sb.putBuffer.Length)
      invariant !ok ==> done < |calls| && !Succeeds(calls[done], sb.pptr, sb.putBuffer.Length)
      invariant sb.wire == if ok then w else w + SentInVain(calls[done], sb.PutArea())
      decreases ok, |calls| - done
    {
      ghost var area, length' := sb.PutArea(), sb.putBuffer.Length;
      ok := Perform(sb, calls[done]);
      if ok {
        HasWrittenNext(start, first, length, calls, done, w, area, length',
                       sb.wire, sb.PutArea(), sb.putBuffer.Length);
        w, done := sb.wire, done + 1;
      }
    }
    if !ok && Unhindered(calls[done]) {
      UnhinderedSucceeds(calls[done], sb.pptr, sb.putBuffer.Length);
    }
  }

  /** A flush fails: a harmful attempt comes before the put area is through. When it is
      repeated and goes through, what the attempts before it took is sent again, because it
      is still in the put area: the bytes are conserved if and only if those attempts took
      nothing. */
  method RetryAfterFailure(sb: BasicSocketStreambuf, first: seq<SendAttempt>, second: seq<SendAttempt>)
    returns (r1: Outcome, r2: Outcome)
    requires sb.Valid() && SendResult(first, |sb.PutArea()|) == Returned(EOF)
    requires Capacity(second) >= |sb.PutArea()|
    modifies sb`ec, sb`wire, sb`pptr, sb.putBuffer
    ensures sb.Valid() && r1 == Returned(EOF) && r2 == Returned(0)
    ensures sb.wire == old(sb.wire) + old(sb.PutArea())[..Capacity(first)] + old(sb.PutArea())
    ensures sb.wire + sb.PutArea() == old(sb.wire + sb.PutArea()) <==> Capacity(first) == 0
  {
    ghost var area, sent, again := sb.PutArea(), 0, 0;
    r1, sent := sb.Sync(first);
    r2, again := sb.Sync(second);
    assert area[..again] == area;
    ghost var start := old(sb.wire);
    assert |start + area[..sent] + area| == |start + area| + sent;
  }

  /** For example: "AB" is pending, one byte is taken, the time is up, and the flush is
      repeated. The peer sees "AAB". */
  method RetryDuplicates() returns (ghost wire: seq<byte>)
    ensures wire == [65, 65, 66]
  {
    var sb := new BasicSocketStreambuf();
    var r;
    ghost var sent;
    r, sent := sb.Sputc(65, []);
    r, sent := sb.Sputc(66, []);
    var first := [SendAttempt(false, Sent(1), 0, NoError), SendAttempt(true, Sent(1), 0, NoError)];
    var second := [SendAttempt(false, Sent(2), 0, NoError)];
    assert Harmless(first[0]) && !Harmless(first[1]) && Calm(first) == 1;
    assert Offered(first, 1) == Offered(first, 0) + 1;
    assert Harmless(second[0]) && Calm(second) == 1 && Offered(second, 1) == Offered(second, 0) + 2;
    var r1, r2 := RetryAfterFailure(sb, first, second);
    wire := sb.wire;
  }

  /** Where reading stands: the characters read, the get area, and the bytes received. */
  datatype ReadState = ReadState(chars: seq<byte>, area: seq<byte>, received: seq<byte>)

  /** What a call of sbumpc does, if it has something to read. */
  function AfterRead(s: ReadState, attempts: seq<ReceiveAttempt>): ReadState {
    var filled := Filled(s.area, attempts);
    if filled == [] then s
    else ReadState(s.chars + [filled[0]], filled[1..], s.received + Drawn(s.area, attempts))
  }

  /** What n calls do. */
  function AfterReads(area: seq<byte>, calls: seq<seq<ReceiveAttempt>>, n: nat): ReadState
    requires n <= |calls|
  {
    if n == 0 then ReadState([], area, []) else AfterRead(AfterReads(area, calls, n - 1), calls[n - 1])
  }

  /** Reading the first character of a get area that was filled with `got` moves it along. */
  lemma ReadAlong(chars: seq<byte>, area: seq<byte>, first: seq<byte>, received: seq<byte>, got: seq<byte>,
                  filled: seq<byte>)
    requires chars + area == first + received && area + got == filled != []
    ensures (chars + [filled[0]]) + filled[1..] == first + (received + got)
  {
    assert [filled[0]] + filled[1..] == filled;
    assert (chars + [filled[0]]) + filled[1..] == chars + ([filled[0]] + filled[1..]);
    assert chars + (area + got) == (chars + area) + got;
    assert first + (received + got) == (first + received) + got;
  }

  lemma ReadConserves(s: ReadState, attempts: seq<ReceiveAttempt>, area: seq<byte>)
    requires s.chars + s.area == area + s.received
    ensures var s' := AfterRead(s, attempts); s'.chars + s'.area == area + s'.received
  {
    var filled, drawn := Filled(s.area, attempts), Drawn(s.area, attempts);
    assert s.area + drawn == filled;
    if filled != [] {
      ReadAlong(s.chars, s.area, area, s.received, drawn, filled);
    }
  }

  /** The characters read, followed by the get area, are the bytes received, in order. */
  lemma {:induction false} ReadsConserve(area: seq<byte>, calls: seq<seq<ReceiveAttempt>>, n: nat)
    requires n <= |calls|
    ensures var s := AfterReads(area, calls, n); s.chars + s.area == area + s.received
  {
    if n > 0 {
      ReadsConserve(area, calls, n - 1);
      ReadConserves(AfterReads(area, calls, n - 1), calls[n - 1], area);
    }
  }

  /** After n calls `chars` are read, and the get area and the bytes received, of which
      `before` had been received before, are as these calls leave them. */
  ghost predicate HasRead(area: seq<byte>, calls: seq<seq<ReceiveAttempt>>, n: nat, chars: seq<byte>,
                          left: seq<byte>, before: seq<byte>, received: seq<byte>)
  {
    && n == |chars| <= |calls|
    && var s := AfterReads(area, calls, n);
       s.chars == chars && s.area == left && received == before + s.received
  }

  lemma HasReadNext(area: seq<byte>, calls: seq<seq<ReceiveAttempt>>, n: nat, chars: seq<byte>, left: seq<byte>,
                    before: seq<byte>, received: seq<byte>)
    requires HasRead(area, calls, n, chars, left, before, received) && n < |calls| && Filled(left, calls[n]) != []
    ensures var filled := Filled(left, calls[n]);
            HasRead(area, calls, n + 1, chars + [filled[0]], filled[1..], before, received + Drawn(left, calls[n]))
  {
  }

  /** Reading characters up to the first call that has nothing to read: the get area is empty
      then, and the call's attempts deliver nothing. The attempts alone decide what is read,
      and all that they deliver is read or in the get area. */
  method RunReads(sb: BasicSocketStreambuf, calls: seq<seq<ReceiveAttempt>>) returns (chars: seq<byte>, done: nat)
    requires sb.Valid()
    modifies sb`ec, sb`received, sb`gptr, sb`egptr, sb.getBuffer
    ensures sb.Valid()
    ensures HasRead(old(sb.GetArea()), calls, done, chars, sb.GetArea(), old(sb.received), sb.received)
    ensures chars + sb.GetArea() == old(sb.GetArea()) + sb.received[|old(sb.received)|..]
    ensures done < |calls| ==> sb.GetArea() == [] && Delivery(calls[done]) == []
  {
    chars, done := [], 0;
    ghost var area, before := sb.GetArea(), sb.received;
    var more := true;
    while done < |calls| && more
      invariant sb.Valid() && HasRead(area, calls, done, chars, sb.GetArea(), before, sb.received)
      invariant !more ==> done < |calls| && sb.GetArea() == [] && Delivery(calls[done]) == []
      decreases more, |calls| - done
    {
      ghost var left, received := sb.GetArea(), sb.received;
      var r := sb.Sbumpc(calls[done]);
      more := r.Returned? && r.c != EOF;
      if more {
        HasReadNext(area, calls, done, chars, left, before, received);
        chars, done := chars + [r.c as byte], done + 1;
      }
    }
    ReadsConserve(area, calls, done);
  }
}
