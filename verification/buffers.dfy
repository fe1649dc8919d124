/**
  Buffers and buffer sequences (buffer.hpp), over one flat memory.

  A buffer is a pointer and a size. Pointers are indices into the array `mem` that stands
  for the address space, so that buffers may lie side by side in one object, repeat, or
  be empty. A buffer sequence means the list of addresses of its bytes, `Addrs`.
 */
module Buffers {

  newtype byte = x: int | 0 <= x < 256

  const SIZE_MAX: nat := 0xFFFF_FFFF_FFFF_FFFF

  function Min(a: nat, b: nat): nat { if a < b then a else b }
  function Max(a: nat, b: nat): nat { if a < b then b else a }

  datatype Buffer = Buffer(data: nat, size: nat) {

    /** operator+ and operator+=: drop the first n bytes, at most all of them. */
    function Plus(n: nat): Buffer {
      var offset := if n < size then n else size;
      Buffer(data + offset, size - offset)
    }

    /** buffer(b, n): keep the first n bytes, at most all of them. */
    function Limit(n: nat): Buffer {
      Buffer(data, if size < n then size else n)
    }

    function Addrs(): seq<nat> { seq(size, i => data + i) }
  }

  /** The number of bytes before buffer i. */
  function Before(bs: seq<Buffer>, i: nat): nat
    requires i <= |bs|
  {
    if i == 0 then 0 else Before(bs, i - 1) + bs[i - 1].size
  }

  function Total(bs: seq<Buffer>): nat { Before(bs, |bs|) }

  function AddrsBefore(bs: seq<Buffer>, i: nat): (r: seq<nat>)
    requires i <= |bs|
    ensures |r| == Before(bs, i)
  {
    if i == 0 then [] else AddrsBefore(bs, i - 1) + bs[i - 1].Addrs()
  }

  /** The addresses of all the bytes of a buffer sequence, in order. */
  function Addrs(bs: seq<Buffer>): (r: seq<nat>)
    ensures |r| == Total(bs)
  {
    AddrsBefore(bs, |bs|)
  }

  ghost predicate InMemory(bs: seq<Buffer>, length: nat) {
    forall i | 0 <= i < |bs| :: bs[i].data + bs[i].size <= length
  }

  ghost predicate Distinct(s: seq<nat>) {
    forall i, j | 0 <= i < j < |s| :: s[i] != s[j]
  }

  ghost predicate Apart(s: seq<nat>, t: seq<nat>) {
    forall i, j | 0 <= i < |s| && 0 <= j < |t| :: s[i] != t[j]
  }

  lemma {:induction false} BeforeMonotone(bs: seq<Buffer>, i: nat, j: nat)
    requires i <= j <= |bs|
    ensures Before(bs, i) <= Before(bs, j)
    decreases j
  {
    if i < j {
      BeforeMonotone(bs, i, j - 1);
    }
  }

  /** Byte o of buffer i is byte Before(i) + o of the sequence. */
  lemma {:induction false} AddrAt(bs: seq<Buffer>, i: nat, o: nat, n: nat)
    requires i < n <= |bs| && o < bs[i].size
    ensures Before(bs, i) + o < Before(bs, n)
    ensures AddrsBefore(bs, n)[Before(bs, i) + o] == bs[i].data + o
    decreases n
  {
    if i < n - 1 {
      AddrAt(bs, i, o, n - 1);
    }
  }

  lemma {:induction false} AddrsInMemory(bs: seq<Buffer>, n: nat, length: nat)
    requires n <= |bs| && InMemory(bs, length)
    ensures forall k | 0 <= k < |AddrsBefore(bs, n)| :: AddrsBefore(bs, n)[k] < length
  {
    if n > 0 {
      AddrsInMemory(bs, n - 1, length);
    }
  }

  /** Plus and Limit split the bytes of a buffer, whatever n is. */
  lemma PlusLimitSplit(b: Buffer, n: nat)
    ensures b.Limit(n).Addrs() + b.Plus(n).Addrs() == b.Addrs()
    ensures b.Limit(n).size == Min(b.size, n)
    ensures b.Plus(n) == if n <= b.size then Buffer(b.data + n, b.size - n) else Buffer(b.data + b.size, 0)
  {
  }

  /** Buffer b holds the bytes n, n + 1, ... of the sequence with addresses `addrs`. */
  ghost predicate Continues(b: Buffer, addrs: seq<nat>, n: nat) {
    n + b.size <= |addrs| && forall k | n <= k < n + b.size :: addrs[k] == b.data + (k - n)
  }

  /** Buffer i of a sequence from offset o on, cut at `limit`, holds the next bytes of it. */
  lemma NextBytes(bs: seq<Buffer>, i: nat, o: nat, limit: nat)
    requires i < |bs| && o <= bs[i].size
    ensures bs[i].Plus(o) == Buffer(bs[i].data + o, bs[i].size - o)
    ensures Continues(bs[i].Plus(o).Limit(limit), Addrs(bs), Before(bs, i) + o)
  {
    BeforeMonotone(bs, i + 1, |bs|);
    forall k | Before(bs, i) + o <= k < Before(bs, i) + bs[i].size
      ensures Addrs(bs)[k] == bs[i].data + o + (k - (Before(bs, i) + o))
    {
      AddrAt(bs, i, k - Before(bs, i), |bs|);
    }
  }

  /** A place in a sequence, after `total` bytes: offset o of buffer i, or the end. */
  ghost predicate IsPlace(bs: seq<Buffer>, i: nat, o: nat, total: nat) {
    i <= |bs| && (if i < |bs| then o <= bs[i].size else o == 0) && total == Before(bs, i) + o
  }

  lemma ContinuesSlice(b: Buffer, addrs: seq<nat>, start: nat, n: nat)
    requires Continues(b, addrs, n) && start <= n
    ensures addrs[start..n + b.size] == addrs[start..n] + b.Addrs()
  {
  }

  lemma {:induction false} BeforeOfPrefix(bs: seq<Buffer>, b: Buffer, i: nat)
    requires i <= |bs|
    ensures Before(bs + [b], i) == Before(bs, i) && AddrsBefore(bs + [b], i) == AddrsBefore(bs, i)
  {
    if i > 0 {
      BeforeOfPrefix(bs, b, i - 1);
    }
  }

  lemma AppendBuffer(bs: seq<Buffer>, b: Buffer)
    ensures Total(bs + [b]) == Total(bs) + b.size && Addrs(bs + [b]) == Addrs(bs) + b.Addrs()
  {
    BeforeOfPrefix(bs, b, |bs|);
  }

  lemma WrapAdd(x: nat, y: nat)
    ensures (x % (SIZE_MAX + 1) + y) % (SIZE_MAX + 1) == (x + y) % (SIZE_MAX + 1)
  {
  }

  /** buffer_size: the sum is kept in a size_t, so it is exact up to SIZE_MAX. */
  method BufferSize(bs: seq<Buffer>) returns (total: nat)
    ensures total == Total(bs) % (SIZE_MAX + 1)
    ensures Total(bs) <= SIZE_MAX ==> total == |Addrs(bs)|
  {
    total := 0;
    for iter := 0 to |bs|
      invariant total == Before(bs, iter) % (SIZE_MAX + 1)
    {
      WrapAdd(Before(bs, iter), bs[iter].size);
      total := (total + bs[iter].size) % (SIZE_MAX + 1);
    }
  }
}

/**
  The buffer_copy family (buffer.hpp). Its overloads share one meaning, `Copied`.
 */
module BufferCopy {
  import opened Buffers

  /** Memory `after` is memory `before` with the first n bytes of the source sequence
      written over the first n bytes of the target sequence, and nothing else changed. */
  ghost predicate Copied(before: seq<byte>, after: seq<byte>, target: seq<nat>, source: seq<nat>, n: nat) {
    && |after| == |before| && n <= |target| && n <= |source|
    && (forall k | 0 <= k < n :: target[k] < |before| && source[k] < |before| && after[target[k]] == before[source[k]])
    && (forall a: nat | a < |before| && a !in target[..n] :: after[a] == before[a])
  }

  /** What the callers of buffer_copy promise: buffers lie in memory, target buffers do
      not overlap each other or the source. */
  ghost predicate Copyable(target: seq<Buffer>, source: seq<Buffer>, length: nat) {
    && length <= SIZE_MAX
    && InMemory(target, length) && InMemory(source, length)
    && Distinct(Addrs(target)) && Apart(Addrs(target), Addrs(source))
  }

  /** buffer_copy(target, source, max) returned n and left memory `after`. */
  ghost predicate CopyResult(before: seq<byte>, after: seq<byte>, target: seq<Buffer>, source: seq<Buffer>,
                             max: nat, n: nat)
  {
    && n == Min(Min(Total(target), Total(source)), max)
    && Copied(before, after, Addrs(target), Addrs(source), n)
  }

  /** Any two overloads with this meaning return the same count and leave the same memory. */
  lemma OverloadsAgree(before: seq<byte>, a: seq<byte>, b: seq<byte>, target: seq<Buffer>, source: seq<Buffer>,
                       max: nat, m: nat, n: nat)
    requires CopyResult(before, a, target, source, max, m) && CopyResult(before, b, target, source, max, n)
    ensures a == b && m == n
  {
    var addrs := Addrs(target)[..n];
    forall i: nat | i < |before|
      ensures a[i] == b[i]
    {
      if i in addrs {
        var k :| 0 <= k < n && addrs[k] == i;
      }
    }
  }

  /** `after` is `before` with the n bytes at s written over those at t. */
  ghost predicate BlockCopied(before: seq<byte>, after: seq<byte>, t: nat, s: nat, n: nat) {
    && |after| == |before| && t + n <= |before| && s + n <= |before|
    && forall a {:trigger after[a]} | 0 <= a < |before| ::
         after[a] == if t <= a < t + n then before[s + (a - t)] else before[a]
  }

  /** An address in the block that comes next is not among those before it. */
  lemma InNextBlock(addrs: seq<nat>, n: nat, b: Buffer, a: nat)
    requires Continues(b, addrs, n) && b.data <= a < b.data + b.size
    ensures a in addrs[..n + b.size] && (Distinct(addrs) ==> a !in addrs[..n])
  {
    var k := n + (a - b.data);
    assert addrs[k] == a;
    assert addrs[..n + b.size][k] == a;
    assert Distinct(addrs) ==> forall j | 0 <= j < n :: addrs[j] != addrs[k];
  }

  /** Copying a block of the next bytes leaves the bytes outside the target alone ... */
  lemma ExtendsFrame(before: seq<byte>, mid: seq<byte>, after: seq<byte>,
                     target: seq<nat>, source: seq<nat>, n: nat, t: Buffer, s: Buffer, a: nat)
    requires Copied(before, mid, target, source, n) && Continues(t, target, n)
    requires BlockCopied(mid, after, t.data, s.data, t.size)
    requires a < |before| && a !in target[..n + t.size]
    ensures after[a] == before[a]
  {
    if t.data <= a < t.data + t.size {
      InNextBlock(target, n, t, a);
    }
    assert target[..n] == target[..n + t.size][..n];
  }

  /** ... and has copied all bytes up to the end of the block. */
  lemma ExtendsContents(before: seq<byte>, mid: seq<byte>, after: seq<byte>,
                        target: seq<nat>, source: seq<nat>, n: nat, t: Buffer, s: Buffer, k: nat)
    requires Copied(before, mid, target, source, n) && Distinct(target) && Apart(target, source)
    requires t.size == s.size && Continues(t, target, n) && Continues(s, source, n)
    requires BlockCopied(mid, after, t.data, s.data, t.size) && k < n + t.size
    ensures target[k] < |before| && source[k] < |before| && after[target[k]] == before[source[k]]
  {
    if k >= n {
      assert target[n + (k - n)] == t.data + (k - n) && source[n + (k - n)] == s.data + (k - n);
      assert source[k] !in target[..n];
    } else {
      assert target[k] in target[..n];
      if t.data <= target[k] < t.data + t.size {
        InNextBlock(target, n, t, target[k]);
      }
    }
  }

  /** Copying a block of the next bytes extends a copy. */
  lemma CopiedExtends(before: seq<byte>, mid: seq<byte>, after: seq<byte>,
                      target: seq<nat>, source: seq<nat>, n: nat, t: Buffer, s: Buffer)
    requires Copied(before, mid, target, source, n)
    requires Distinct(target) && Apart(target, source)
    requires t.size == s.size && Continues(t, target, n) && Continues(s, source, n)
    requires BlockCopied(mid, after, t.data, s.data, t.size)
    ensures Copied(before, after, target, source, n + t.size)
  {
    forall k | 0 <= k < n + t.size
      ensures target[k] < |before| && source[k] < |before| && after[target[k]] == before[source[k]]
    {
      ExtendsContents(before, mid, after, target, source, n, t, s, k);
    }
    forall a: nat | a < |before| && a !in target[..n + t.size]
      ensures after[a] == before[a]
    {
      ExtendsFrame(before, mid, after, target, source, n, t, s, a);
    }
  }

  /** buffer_copy_1: one memcpy. */
  method Copy1(mem: array<byte>, target: Buffer, source: Buffer) returns (n: nat)
    requires target.data + target.size <= mem.Length && source.data + source.size <= mem.Length
    requires Apart(target.Addrs(), source.Addrs())
    modifies mem
    ensures n == Min(target.size, source.size)
    ensures BlockCopied(old(mem[..]), mem[..], target.data, source.data, n)
  {
    n := if target.size < source.size then target.size else source.size;
    if n > 0 {
      forall k | 0 <= k < n {
        mem[target.data + k] := mem[source.data + k];
      }
    }
  }

  lemma ContinuesApart(t: Buffer, s: Buffer, target: seq<nat>, source: seq<nat>, n: nat)
    requires Apart(target, source) && Continues(t, target, n) && Continues(s, source, n)
    ensures Apart(t.Addrs(), s.Addrs())
  {
    forall i, j | 0 <= i < t.size && 0 <= j < s.size
      ensures t.Addrs()[i] != s.Addrs()[j]
    {
      assert target[n + i] == t.data + i && source[n + j] == s.data + j;
    }
  }

  /** buffer_copy_1, as the next step of copying one sequence to another. */
  method CopyNext(mem: array<byte>, t: Buffer, s: Buffer,
                  ghost before: seq<byte>, ghost target: seq<nat>, ghost source: seq<nat>, ghost total: nat)
    returns (n: nat)
    requires t.data + t.size <= mem.Length && s.data + s.size <= mem.Length
    requires Distinct(target) && Apart(target, source)
    requires Copied(before, mem[..], target, source, total)
    requires Continues(t, target, total) && Continues(s, source, total)
    modifies mem
    ensures n == Min(t.size, s.size)
    ensures Copied(before, mem[..], target, source, total + n)
  {
    ContinuesApart(t, s, target, source, total);
    ghost var mid := mem[..];
    n := Copy1(mem, t, s);
    CopiedExtends(before, mid, mem[..], target, source, total, Buffer(t.data, n), Buffer(s.data, n));
  }

  /** Where a loop over a sequence goes after copying n bytes: to the next buffer when this one is
      used up. */
  function Next(i: nat, o: nat, n: nat, rest: Buffer): (nat, nat) {
    if n == rest.size then (i + 1, 0) else (i, o + n)
  }

  lemma NextIsPlace(bs: seq<Buffer>, i: nat, o: nat, total: nat, n: nat)
    requires i < |bs| && IsPlace(bs, i, o, total) && n <= bs[i].size - o
    ensures var next := Next(i, o, n, bs[i].Plus(o)); IsPlace(bs, next.0, next.1, total + n)
  {
  }

  /** The copy in these loops: from a place in the source to one in the target. */
  method CopyBlock(mem: array<byte>, target: seq<Buffer>, t: nat, toff: nat, source: seq<Buffer>, s: nat, soff: nat,
                   limit: nat, ghost before: seq<byte>, ghost total: nat)
    returns (n: nat)
    requires Copyable(target, source, mem.Length)
    requires t < |target| && IsPlace(target, t, toff, total)
    requires s < |source| && IsPlace(source, s, soff, total)
    requires Copied(before, mem[..], Addrs(target), Addrs(source), total)
    modifies mem
    ensures n == Min(target[t].Plus(toff).size, Min(source[s].Plus(soff).size, limit))
    ensures n <= target[t].size - toff && n <= source[s].size - soff
    ensures Copied(before, mem[..], Addrs(target), Addrs(source), total + n)
  {
    NextBytes(target, t, toff, target[t].size - toff);
    NextBytes(source, s, soff, limit);
    n := CopyNext(mem, target[t].Plus(toff), source[s].Plus(soff).Limit(limit),
                  before, Addrs(target), Addrs(source), total);
  }

  lemma NothingCopied(memory: seq<byte>, target: seq<nat>, source: seq<nat>)
    ensures Copied(memory, memory, target, source, 0)
  {
  }

  /** The loops end when one side is exhausted or the limit is reached. */
  lemma LoopResult(before: seq<byte>, after: seq<byte>, target: seq<Buffer>, t: nat, toff: nat,
                   source: seq<Buffer>, s: nat, soff: nat, max: nat, total: nat)
    requires IsPlace(target, t, toff, total) && IsPlace(source, s, soff, total) && total <= max
    requires total == max || t == |target| || s == |source|
    requires Copied(before, after, Addrs(target), Addrs(source), total)
    ensures CopyResult(before, after, target, source, max, total)
  {
  }

  /** multiple_buffers to multiple_buffers, with a limit. */
  method CopyLimited(mem: array<byte>, target: seq<Buffer>, source: seq<Buffer>, max: nat) returns (total: nat)
    requires Copyable(target, source, mem.Length)
    modifies mem
    ensures CopyResult(old(mem[..]), mem[..], target, source, max, total)
  {
    ghost var before := mem[..];
    total := 0;
    var t: nat, toff: nat, s: nat, soff: nat := 0, 0, 0, 0;
    NothingCopied(before, Addrs(target), Addrs(source));
    while total != max && t != |target| && s != |source|
      invariant IsPlace(target, t, toff, total) && IsPlace(source, s, soff, total) && total <= max
      invariant Copied(before, mem[..], Addrs(target), Addrs(source), total)
      decreases |target| - t + |source| - s, max - total
    {
      var targetBuffer := target[t].Plus(toff);
      var sourceBuffer := source[s].Plus(soff);
      var copied := CopyBlock(mem, target, t, toff, source, s, soff, max - total, before, total);
      NextIsPlace(target, t, toff, total, copied);
      NextIsPlace(source, s, soff, total, copied);
      total := total + copied;
      var (t', toff') := Next(t, toff, copied, targetBuffer);
      var (s', soff') := Next(s, soff, copied, sourceBuffer);
      t, toff, s, soff := t', toff', s', soff';
    }
    LoopResult(before, mem[..], target, t, toff, source, s, soff, max, total);
  }

  /** multiple_buffers to multiple_buffers: everything that fits. */
  method CopyAll(mem: array<byte>, target: seq<Buffer>, source: seq<Buffer>) returns (total: nat)
    requires Copyable(target, source, mem.Length)
    modifies mem
    ensures CopyResult(old(mem[..]), mem[..], target, source, Total(target), total)
  {
    ghost var before := mem[..];
    total := 0;
    var t: nat, toff: nat, s: nat, soff: nat := 0, 0, 0, 0;
    NothingCopied(before, Addrs(target), Addrs(source));
    while t != |target| && s != |source|
      invariant IsPlace(target, t, toff, total) && IsPlace(source, s, soff, total)
      invariant Copied(before, mem[..], Addrs(target), Addrs(source), total)
      decreases |target| - t + |source| - s
    {
      var targetBuffer := target[t].Plus(toff);
      var sourceBuffer := source[s].Plus(soff);
      var copied := CopyBlock(mem, target, t, toff, source, s, soff, sourceBuffer.size, before, total);
      NextIsPlace(target, t, toff, total, copied);
      NextIsPlace(source, s, soff, total, copied);
      total := total + copied;
      var (t', toff') := Next(t, toff, copied, targetBuffer);
      var (s', soff') := Next(s, soff, copied, sourceBuffer);
      t, toff, s, soff := t', toff', s', soff';
    }
    LoopResult(before, mem[..], target, t, toff, source, s, soff, Total(target), total);
  }

  /** The default limit of the other overloads is no limit. */
  lemma DefaultLimit(before: seq<byte>, after: seq<byte>, target: seq<Buffer>, source: seq<Buffer>, n: nat)
    requires Copyable(target, source, |before|) && (|target| == 1 || |source| == 1)
    requires CopyResult(before, after, target, source, SIZE_MAX, n)
    ensures CopyResult(before, after, target, source, Total(target), n)
  {
    assert |target| == 1 ==> Total(target) == Before(target, 0) + target[0].size;
    assert |source| == 1 ==> Total(source) == Before(source, 0) + source[0].size;
  }

  lemma One(b: Buffer, length: nat)
    requires InMemory([b], length)
    ensures Total([b]) == b.size && b.data + b.size <= length
  {
    assert [b][0] == b;
    assert Before([b], 1) == Before([b], 0) + b.size;
  }

  lemma WholeBuffer(bs: seq<Buffer>, i: nat, length: nat)
    requires i < |bs| && InMemory(bs, length)
    ensures Continues(bs[i], Addrs(bs), Before(bs, i))
    ensures bs[i].data + bs[i].size <= length
    ensures Before(bs, i + 1) == Before(bs, i) + bs[i].size
  {
    NextBytes(bs, i, 0, bs[i].size);
  }

  lemma NextBytesOfOne(b: Buffer, o: nat, n: nat)
    requires o + n <= b.size
    ensures Continues(Buffer(b.data + o, n), Addrs([b]), o)
  {
    NextBytes([b], 0, o, n);
  }

  /** one_buffer to one_buffer, with a limit and without. */
  method CopyOneToOne(mem: array<byte>, target: Buffer, source: Buffer, max: nat := SIZE_MAX) returns (n: nat)
    requires Copyable([target], [source], mem.Length)
    modifies mem
    ensures CopyResult(old(mem[..]), mem[..], [target], [source], max, n)
  {
    One(target, mem.Length);
    One(source, mem.Length);
    NextBytesOfOne(target, 0, target.size);
    NextBytesOfOne(source, 0, Min(source.size, max));
    n := CopyNext(mem, target, source.Limit(max), mem[..], Addrs([target]), Addrs([source]), 0);
  }

  /** A list of sources gathered into one target. */
  method CopyManyToOne(mem: array<byte>, target: Buffer, source: seq<Buffer>, max: nat := SIZE_MAX) returns (total: nat)
    requires Copyable([target], source, mem.Length)
    modifies mem
    ensures CopyResult(old(mem[..]), mem[..], [target], source, max, total)
  {
    One(target, mem.Length);
    total := 0;
    var s := 0;
    var targetBuffer := target.Limit(max);
    while targetBuffer.size != 0 && s != |source|
      invariant s <= |source| && total <= Min(target.size, max)
      invariant targetBuffer == Buffer(target.data + total, Min(target.size, max) - total)
      invariant targetBuffer.size > 0 ==> total == Before(source, s)
      invariant Copied(old(mem[..]), mem[..], Addrs([target]), Addrs(source), total)
    {
      NextBytesOfOne(target, total, targetBuffer.size);
      WholeBuffer(source, s, mem.Length);
      var copied := CopyNext(mem, targetBuffer, source[s], old(mem[..]), Addrs([target]), Addrs(source), total);
      total := total + copied;
      targetBuffer := targetBuffer.Plus(copied);
      s := s + 1;
    }
  }

  /** One source scattered over a list of targets. */
  method CopyOneToMany(mem: array<byte>, target: seq<Buffer>, source: Buffer, max: nat := SIZE_MAX) returns (total: nat)
    requires Copyable(target, [source], mem.Length)
    modifies mem
    ensures CopyResult(old(mem[..]), mem[..], target, [source], max, total)
  {
    One(source, mem.Length);
    total := 0;
    var t := 0;
    var sourceBuffer := source.Limit(max);
    while sourceBuffer.size != 0 && t != |target|
      invariant t <= |target| && total <= Min(source.size, max)
      invariant sourceBuffer == Buffer(source.data + total, Min(source.size, max) - total)
      invariant sourceBuffer.size > 0 ==> total == Before(target, t)
      invariant Copied(old(mem[..]), mem[..], Addrs(target), Addrs([source]), total)
    {
      NextBytesOfOne(source, total, sourceBuffer.size);
      WholeBuffer(target, t, mem.Length);
      var copied := CopyNext(mem, target[t], sourceBuffer, old(mem[..]), Addrs(target), Addrs([source]), total);
      total := total + copied;
      sourceBuffer := sourceBuffer.Plus(copied);
      t := t + 1;
    }
  }
}
