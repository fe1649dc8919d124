/**
  buffers_iterator: a random-access cursor over the bytes of a buffer sequence that may
  contain empty buffers (buffers_iterator.hpp).
 */
module BuffersIterator {
  import opened Buffers
  import opened BufferCopy

  /** Where an iterator at `position` has to be: at the end exactly when the position is
      the total, and otherwise inside a non-empty buffer. */
  ghost predicate Canonical(bs: seq<Buffer>, current: nat, offset: nat, position: nat) {
    if current < |bs| then offset < bs[current].size && position == Before(bs, current) + offset
    else current == |bs| && offset == 0 && position == Total(bs)
  }

  /** A position determines the rest of the cursor. */
  lemma CanonicalUnique(bs: seq<Buffer>, c1: nat, o1: nat, c2: nat, o2: nat, position: nat)
    requires Canonical(bs, c1, o1, position) && Canonical(bs, c2, o2, position)
    ensures c1 == c2 && o1 == o2
  {
    if c1 < c2 {
      BeforeMonotone(bs, c1 + 1, c2);
    } else if c2 < c1 {
      BeforeMonotone(bs, c2 + 1, c1);
    }
  }

  /** A canonical cursor is at the end exactly when its position is the total. */
  lemma EndIffTotal(bs: seq<Buffer>, current: nat, offset: nat, position: nat)
    requires Canonical(bs, current, offset, position)
    ensures position <= Total(bs)
    ensures current == |bs| <==> position == Total(bs)
  {
    if current < |bs| {
      BeforeMonotone(bs, current + 1, |bs|);
    }
  }

  class Iterator {
    const buffers: seq<Buffer>
    var current: nat
    var currentBuffer: Buffer
    var offset: nat
    var position: nat

    ghost predicate Valid()
      reads this
    {
      && Canonical(buffers, current, offset, position)
      && (current < |buffers| ==> currentBuffer == buffers[current])
    }

    /** buffers_iterator::begin. */
    constructor Begin(bs: seq<Buffer>)
      ensures Valid() && buffers == bs && position == 0
    {
      buffers, current, currentBuffer, offset, position := bs, 0, Buffer(0, 0), 0, 0;
      new;
      while current != |buffers|
        invariant current <= |buffers| && offset == 0 && position == 0 == Before(buffers, current)
      {
        currentBuffer := buffers[current];
        if currentBuffer.size > 0 {
          break;
        }
        current := current + 1;
      }
    }

    /** buffers_iterator::end. */
    constructor End(bs: seq<Buffer>)
      ensures Valid() && buffers == bs && position == Total(bs)
    {
      buffers, current, currentBuffer, offset, position := bs, 0, Buffer(0, 0), 0, 0;
      new;
      while current != |buffers|
        invariant current <= |buffers| && offset == 0 && position == Before(buffers, current)
      {
        position := position + buffers[current].size;
        current := current + 1;
      }
    }

    constructor Copy(it: Iterator)
      requires it.Valid()
      ensures Valid() && buffers == it.buffers
      ensures current == it.current && offset == it.offset && position == it.position
    {
      buffers, current, currentBuffer := it.buffers, it.current, it.currentBuffer;
      offset, position := it.offset, it.position;
    }

    /** The address that dereferencing gives is byte `position` of the whole sequence. */
    method Dereference() returns (address: nat)
      requires Valid() && position < Total(buffers)
      ensures address == Addrs(buffers)[position]
    {
      EndIffTotal(buffers, current, offset, position);
      AddrAt(buffers, current, offset, |buffers|);
      address := currentBuffer.data + offset;
    }

    method Increment()
      requires Valid() && current != |buffers|
      modifies this
      ensures Valid() && position == old(position) + 1
    {
      position := position + 1;
      offset := offset + 1;
      if offset != currentBuffer.size {
        return;
      }
      current := current + 1;
      offset := 0;
      while current != |buffers|
        invariant current <= |buffers| && offset == 0 && position == Before(buffers, current) == old(position) + 1
      {
        currentBuffer := buffers[current];
        if currentBuffer.size > 0 {
          return;
        }
        current := current + 1;
      }
    }

    method Decrement()
      requires Valid() && position > 0
      modifies this
      ensures Valid() && position == old(position) - 1
    {
      position := position - 1;
      if offset != 0 {
        offset := offset - 1;
        return;
      }
      var iter: nat := current;
      while iter != 0
        invariant iter <= current == old(current) && offset == 0 && position == old(position) - 1
        invariant Before(buffers, iter) == old(position)
      {
        iter := iter - 1;
        var buffer := buffers[iter];
        if buffer.size > 0 {
          current := iter;
          currentBuffer := buffer;
          offset := buffer.size - 1;
          return;
        }
      }
    }

    /** advance(n): any destination between the beginning and the end. */
    method Advance(n: int)
      requires Valid() && 0 <= position + n <= Total(buffers)
      modifies this
      ensures Valid() && position == old(position) + n
    {
      EndIffTotal(buffers, current, offset, position);
      if n > 0 {
        Forward(n);
      } else if n < 0 {
        Backward(-n);
      }
    }

    method Forward(distance: nat)
      requires Valid() && position + distance <= Total(buffers) && current != |buffers|
      modifies this
      ensures Valid() && position == old(position) + distance
    {
      var n: nat := distance;
      while true
        invariant current < |buffers| && currentBuffer == buffers[current] && offset <= currentBuffer.size
        invariant position == Before(buffers, current) + offset
        invariant position + n == old(position) + distance
        decreases |buffers| - current
      {
        var balance := currentBuffer.size - offset;
        if balance > n {
          position := position + n;
          offset := offset + n;
          return;
        }
        n := n - balance;
        position := position + balance;
        current := current + 1;
        if current == |buffers| {
          assert n == 0;
          currentBuffer := Buffer(0, 0);
          offset := 0;
          return;
        }
        currentBuffer := buffers[current];
        offset := 0;
      }
    }

    method Backward(distance: nat)
      requires Valid() && distance > 0 && position >= distance
      modifies this
      ensures Valid() && position == old(position) - distance
    {
      var absN: nat := distance;
      while true
        invariant current <= |buffers| && 0 < absN <= position
        invariant current < |buffers| ==> currentBuffer == buffers[current] && offset <= currentBuffer.size
        invariant current == |buffers| ==> offset == 0
        invariant position == Before(buffers, current) + offset
        invariant position - absN == old(position) - distance
        decreases current
      {
        if offset >= absN {
          position := position - absN;
          offset := offset - absN;
          return;
        }
        absN := absN - offset;
        position := position - offset;
        if current == 0 {
          assert false;
        }
        var iter: nat := current;
        label search:
        while iter != 0
          invariant iter <= current == old@search(current) && position == old@search(position)
          invariant Before(buffers, iter) == Before(buffers, current)
        {
          iter := iter - 1;
          var buffer := buffers[iter];
          if buffer.size > 0 {
            current := iter;
            currentBuffer := buffer;
            offset := buffer.size;
            break;
          }
        }
      }
    }

    /** operator[]: the byte at a distance, from a copy of the iterator. */
    method At(difference: int) returns (address: nat)
      requires Valid() && 0 <= position + difference < Total(buffers)
      ensures address == Addrs(buffers)[position + difference]
    {
      var tmp := new Iterator.Copy(this);
      tmp.Advance(difference);
      address := tmp.Dereference();
    }

    /** operator==, for two iterators over the same buffers: it compares positions only,
        and that is enough to compare cursors. */
    method Equal(other: Iterator) returns (r: bool)
      requires Valid() && other.Valid() && buffers == other.buffers
      ensures r <==> current == other.current && offset == other.offset
    {
      r := position == other.position;
      if r {
        CanonicalUnique(buffers, current, offset, other.current, other.offset, position);
      }
    }

    /** operator-: the number of single steps from this iterator to the other. */
    method DistanceTo(other: Iterator) returns (d: int)
      requires Valid() && other.Valid() && buffers == other.buffers
      ensures 0 <= position + d <= Total(buffers)
      ensures Canonical(buffers, other.current, other.offset, position + d)
    {
      EndIffTotal(other.buffers, other.current, other.offset, other.position);
      d := other.position - position;
    }
  }

  /** Every position has a canonical cursor. */
  lemma {:induction false} CanonicalExists(bs: seq<Buffer>, n: nat, position: nat) returns (current: nat, offset: nat)
    requires n <= |bs| && Before(bs, n) <= position <= Total(bs)
    ensures Canonical(bs, current, offset, position)
    decreases |bs| - n
  {
    if n == |bs| {
      current, offset := n, 0;
    } else if position < Before(bs, n + 1) {
      current, offset := n, position - Before(bs, n);
    } else {
      current, offset := CanonicalExists(bs, n + 1, position);
    }
  }

  /** n single increments, or -n single decrements. */
  method SingleSteps(it: Iterator, n: int)
    requires it.Valid() && 0 <= it.position + n <= Total(it.buffers)
    modifies it
    ensures it.Valid() && it.position == old(it.position) + n
  {
    var done := 0;
    while done != n
      invariant it.Valid() && it.position == old(it.position) + done
      invariant if n < 0 then n <= done <= 0 else 0 <= done <= n
      decreases if n < 0 then done - n else n - done
    {
      if n > 0 {
        EndIffTotal(it.buffers, it.current, it.offset, it.position);
        it.Increment();
        done := done + 1;
      } else {
        it.Decrement();
        done := done - 1;
      }
    }
  }

  /** The fast move ends at the same cursor as the single moves. */
  method AdvanceIsSingleSteps(it: Iterator, n: int) returns (fast: Iterator, slow: Iterator)
    requires it.Valid() && 0 <= it.position + n <= Total(it.buffers)
    ensures fast.position == slow.position == it.position + n
    ensures fast.current == slow.current && fast.offset == slow.offset
    ensures Canonical(it.buffers, fast.current, fast.offset, it.position + n)
  {
    fast := new Iterator.Copy(it);
    fast.Advance(n);
    slow := new Iterator.Copy(it);
    SingleSteps(slow, n);
    CanonicalUnique(it.buffers, fast.current, fast.offset, slow.current, slow.offset, it.position + n);
  }

  /** begin + buffer_size == end. */
  method BeginPlusSizeIsEnd(bs: seq<Buffer>) returns (same: bool)
    requires Total(bs) <= SIZE_MAX
    ensures same
  {
    var first := new Iterator.Begin(bs);
    var last := new Iterator.End(bs);
    var size := BufferSize(bs);
    first.Advance(size);
    CanonicalUnique(bs, first.current, first.offset, last.current, last.offset, Total(bs));
    same := first.Equal(last);
  }

  /** Two traversals of the same buffers agree: byte i that buffer_copy writes is the
      byte that buffers_begin(source) + i refers to. */
  method CopyAgreesWithIterator(mem: array<byte>, target: seq<Buffer>, source: seq<Buffer>, i: nat)
    returns (from: nat, to: nat)
    requires Copyable(target, source, mem.Length) && Total(source) <= Total(target) && i < Total(source)
    modifies mem
    ensures from < mem.Length && to < mem.Length
    ensures from == Addrs(source)[i] && to == Addrs(target)[i] && mem[to] == old(mem[from])
  {
    var read := new Iterator.Begin(source);
    from := read.At(i);
    var written := new Iterator.Begin(target);
    to := written.At(i);
    AddrsInMemory(source, |source|, mem.Length);
    AddrsInMemory(target, |target|, mem.Length);
    ghost var before := mem[..];
    var n := CopyAll(mem, target, source);
    assert mem[..][Addrs(target)[i]] == before[Addrs(source)[i]];
  }
}
