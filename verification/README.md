# Buffers, stream buffers and coroutines of Asio, as used by Residue

This project models the byte-moving core of the Asio library that Residue carries in
`deps/asio`, and proves what that core is for: bytes arrive complete, once and in order,
whatever way they are cut into buffers, partial transfers and reentries.

| file | what it models |
|---|---|
| `buffers.dfy` | buffers, buffer sequences, `buffer_size`, the `buffer_copy` family |
| `buffers_iterator.dfy` | `buffers_iterator`, and its agreement with `buffer_copy` |
| `byte_queue.dfy` | the contract shared by the stream buffer and the dynamic buffers: a bounded byte queue |
| `streambuf.dfy` | `basic_streambuf` |
| `dynamic_buffer.dfy` | `dynamic_string_buffer` and `dynamic_vector_buffer` |
| `socket_streambuf.dfy` | `basic_socket_streambuf`: flush and fill against an arbitrary socket |
| `completion_condition.dfy` | the completion conditions |
| `sessions.dfy` | which transfers a composed operation makes, and when it returns |
| `transfer.dfy` | `consuming_buffers`, `write` and `read` of a buffer sequence, `read` into a stream buffer or a dynamic buffer |
| `read_until.dfy` | `partial_search` and `read_until` with a string delimiter, over the iterator and the stream buffer |
| `coroutine.dfy` | the stackless coroutine: the REENTER, YIELD and FORK macros |

How the parts are modelled:

- Memory is one array of bytes and a pointer is an index into it, so a buffer is an
  address range. A buffer sequence means the list of the addresses of its bytes, `Addrs`.
  Everything that walks over buffers (copying, the iterator, `consuming_buffers`) is
  specified by that one list.
- The stream buffer keeps its array and its get and put positions, as offsets; `memmove`
  and `resize` happen in place. Throwing `std::length_error` is a result `ok == false`.
- Sockets, streams and the clock are sequences of outcomes chosen arbitrarily. A call that
  has used up its outcomes is still waiting. What went over the wire is kept in ghost
  fields. The outcomes alone decide what each call and each run does: how much is sent
  (`Capacity`), what is received (`Delivery`), and, for the composed operations, which
  transfers are made, of what size, and when they end (`Session`, `Ended`).
- What one transfer can carry depends on the buffers that fit into one call, or on the free
  capacity of a vector (`Carrier`). How far the capacity exceeds the length of the vector
  is arbitrary at each transfer (`spare`); the length follows from the transfers before.
- A coroutine body is a labelled instruction graph over an arbitrary object state. The
  macros are executed jump by jump (`Step`, `Enter`); the documented meaning is a separate
  definition without labels, stored int or flags (`Advance`, `Resume`). The theorem is that
  the first refines the second, under every schedule of every number of forked copies.

Where the code does something else than its documentation says, the model follows the
code and the difference is proved:

- A `prepare` that throws has already moved the contents (`basic_streambuf.hpp`, line 325
  before line 331), so `data()` survives exactly when its bytes repeat with the distance of
  the move: `Streambuf.MovedInput`; `Streambuf.ThrowSpoilsData` is a stream buffer on which
  they do not. An `overflow` that throws, in contrast, changes nothing.
- The three queues agree on sizes when each `commit(n)` follows a `prepare(x)` with
  `x >= n`: `ByteQueue.SameSizes`. On contents they then agree if and only if each byte
  committed was written since its prepare, or was the same in both spaces when they were
  prepared: `ByteQueue.SameContentsIff`, and on the classes `DynamicBuffers.RunBoth`.
  `DynamicBuffers.UnwrittenIsDisciplined` gives calls that meet the first condition and do
  not write what they commit, and `DynamicBuffers.UnwrittenInStreambuf` and
  `DynamicBuffers.UnwrittenInDynamicBuffer` what they lead to.
- A dynamic buffer may be given data that already exceeds its limit. In `read`
  (`impl/read.hpp`, lines 126-128) the difference `max_size() - size()` then wraps around,
  so that there seems to be room and `prepare` throws. It does so exactly when the data
  exceeds the limit at the start and the condition grants anything:
  `Transfer.ReadDynamic`.
- A flush that failed part way leaves the bytes already sent in the put area; repeating it
  sends them twice. Bytes are conserved exactly when the attempts before the first harmful
  one took nothing: `SocketStreambuf.RetryAfterFailure`, with the case
  `SocketStreambuf.RetryDuplicates`.
- Leaving a coroutine body without a yield is documented to terminate the coroutine
  (`coroutine.hpp`, lines 194-196). It does exactly when no fork was executed in the same
  reentry; otherwise the next reentry executes nothing and completes it:
  `Coroutine.LeavingCompletes`, `Coroutine.CompletionIsAbsorbing`, with the case
  `Coroutine.ForkAndLeave`.

## Model

| member | source | states |
|---|---|---|
| `Coroutine.ReentryImplementsContinuation` | deps/asio/coroutine.hpp:241-318 | For every well-formed body, every object state and every schedule of steps and reentries over all forked copies, each copy has executed the statements, holds the state and will go on at the place that the documented meaning gives it. |
| `Coroutine.RunImplements` | deps/asio/coroutine.hpp:281-318 | The same from any pool of coroutines that implements a pool of continuations: refinement is kept over whole runs. |
| `Coroutine.PoolStepImplements` | deps/asio/coroutine.hpp:281-318 | One event of any copy, including the creation of a new copy, keeps the refinement. |
| `Coroutine.StepImplements` | deps/asio/coroutine.hpp:281-318 | Every jump or assignment of the expanded macros is either invisible or exactly one instruction of the body. |
| `Coroutine.YieldImplements` | deps/asio/coroutine.hpp:294-309 | The nested loops and switches of YIELD suspend after executing the statement once, for a plain yield, `yield return` and `yield break`. |
| `Coroutine.ForkImplements` | deps/asio/coroutine.hpp:311-318 | The loop of FORK executes its statement once and goes on; the copy made by the statement waits at the same place as a child. |
| `Coroutine.CopyImplements` | deps/asio/coroutine.hpp:311-318 | The copy made by the statement of a fork implements the child continuation, at the place of the parent. |
| `Coroutine.EnterImplements` | deps/asio/coroutine.hpp:281-292 | The switch of REENTER, over the stored int alone, resumes at the place where the coroutine was suspended. |
| `Coroutine.MacrosMakeProgress` | deps/asio/coroutine.hpp:294-318 | From any reachable point at most six steps of the macros lead to the next instruction or out of the reentry. |
| `Coroutine.ReentriesRunStraightThrough` | deps/asio/coroutine.hpp:264-309 | For a fork-free body, the statements executed by any sequence of reentries are a prefix of those of the body run straight through, and all of them at completion. |
| `Coroutine.StraightIsReached` | deps/asio/coroutine.hpp:264-309 | Conversely every point of the straight run is reached by some sequence of reentries. |
| `Coroutine.SessionFollows` | deps/asio/coroutine.hpp:264-309 | At every point of a client's session the suspended position, the object state and the inputs used are those of a point of the straight run. |
| `Coroutine.ForkSplits` | deps/asio/coroutine.hpp:311-318 | After a fork on line n parent and copy have the same state, trace and next instruction; the parent holds n and is no child, the copy holds -n, is a child and is not complete. |
| `Coroutine.ForkBranches` | deps/asio/coroutine.hpp:247-251 | A branch on is_child() right after a fork is taken by the copy, once it is reentered, and not by the parent. |
| `Coroutine.YieldSuspends` | deps/asio/coroutine.hpp:294-309 | A yield executes its statement once and leaves the coroutine suspended, holding the line of the yield. |
| `Coroutine.YieldEndsChildhood` | deps/asio/coroutine.hpp:247-251 | A coroutine that yielded is no child any more: when it is reentered, it does not take a branch on is_child(). |
| `Coroutine.ForkAddsChild` | deps/asio/coroutine.hpp:311-318 | A fork adds exactly one object to the pool: a suspended child with the state and the statements of its parent; all others stay as they were. |
| `Coroutine.LeavingCompletes` | deps/asio/coroutine.hpp:264-276 | Leaving the body without a yield, at any point of any reentry, completes the coroutine if and only if no fork was executed in that reentry; otherwise it keeps the line of a fork and has nothing more to do. |
| `Coroutine.FlagMeansForked` | deps/asio/coroutine.hpp:264-276 | At the start of every instruction of a reentry the modified flag is set exactly when a fork has been executed in it. |
| `Coroutine.ForkAndLeave` | deps/asio/coroutine.hpp:311-318 | A body that is one fork on line 2 ends its first reentry incomplete, holding 2. |
| `Coroutine.CompletionIsAbsorbing` | deps/asio/coroutine.hpp:281-292 | Any reentry of a finished coroutine executes nothing, ends within three steps and leaves it complete, and a child by is_child(), also when it had only been left after a fork. |
| `Coroutine.CaseOf` | deps/asio/coroutine.hpp:298-315 | The instruction whose macro put the wanted `case` label into the switch, or none if there is none. |
| `Coroutine.CoroutineObject.constructor` | deps/asio/coroutine.hpp:245-245 | A new coroutine holds 0. |
| `Coroutine.CoroutineRef.constructor` | deps/asio/coroutine.hpp:267-268 | A new reference to the coroutine is unmodified. |
| `Coroutine.CoroutineRef.Set` | deps/asio/coroutine.hpp:271-271 | Assignment stores the value and sets the flag. |
| `Coroutine.CoroutineRef.Destroy` | deps/asio/coroutine.hpp:269-269 | The destructor stores -1 unless the flag is set. |
| `Coroutine.StepObjects` | deps/asio/coroutine.hpp:281-318 | One jump of the expansion, executed on the objects, is one step of the machine that the theorems are about. |
| `Coroutine.RunReentry` | deps/asio/coroutine.hpp:281-318 | A whole reentry on the objects, of any length, does what the continuation does. |
| `Buffers.BufferSize` | deps/asio/buffer.hpp:543-557 | The number of addresses in the sequence, modulo the range of size_t. |
| `Buffers.PlusLimitSplit` | deps/asio/buffer.hpp:635-646 | Dropping n bytes and keeping n bytes split a buffer, for every n. |
| `BufferCopy.Copy1` | deps/asio/buffer.hpp:1916-1926 | Copies the smaller of the two sizes and changes no other byte of memory. |
| `BufferCopy.CopyLimited` | deps/asio/buffer.hpp:2036-2082 | Terminates for all lists, with empty buffers anywhere; returns the least of both totals and the limit; the first n target bytes become the first n source bytes; nothing else in memory changes. |
| `BufferCopy.CopyAll` | deps/asio/buffer.hpp:1992-2034 | The same without a limit. |
| `BufferCopy.CopyOneToOne` | deps/asio/buffer.hpp:1928-1944 | The single-buffer fast path has the meaning of the general copy on one-element lists. |
| `BufferCopy.CopyManyToOne` | deps/asio/buffer.hpp:1946-1967 | So has gathering a list into one buffer. |
| `BufferCopy.CopyOneToMany` | deps/asio/buffer.hpp:1969-1990 | So has scattering one buffer over a list. |
| `BufferCopy.OverloadsAgree` | deps/asio/buffer.hpp:1928-2082 | Any two overloads with that meaning return the same count and leave the same memory. |
| `BufferCopy.DefaultLimit` | deps/asio/buffer.hpp:1946-1951 | The default limit of the fast paths is no limit. |
| `BufferCopy.CopiedExtends` | deps/asio/buffer.hpp:2059-2062 | Copying the next block extends a partial copy without disturbing it. |
| `BuffersIterator.CanonicalUnique` | deps/asio/buffers_iterator.hpp:348-351 | A position determines buffer and offset, so comparing positions compares iterators. |
| `BuffersIterator.CanonicalExists` | deps/asio/buffers_iterator.hpp:407-485 | Every position from 0 to the total has a canonical cursor. |
| `BuffersIterator.EndIffTotal` | deps/asio/buffers_iterator.hpp:187-203 | A canonical cursor is at the end exactly when its position is the total. |
| `BuffersIterator.Iterator.Begin` | deps/asio/buffers_iterator.hpp:167-184 | Canonical at position 0, past leading empty buffers. |
| `BuffersIterator.Iterator.End` | deps/asio/buffers_iterator.hpp:187-203 | Canonical at the total. |
| `BuffersIterator.Iterator.Copy` | deps/asio/buffers_iterator.hpp:218-223 | A copy has the same cursor. |
| `BuffersIterator.Iterator.Dereference` | deps/asio/buffers_iterator.hpp:341-345 | Refers to byte `position` of the whole sequence. |
| `BuffersIterator.Iterator.Increment` | deps/asio/buffers_iterator.hpp:354-374 | Moves one byte on and stays canonical across empty buffers. |
| `BuffersIterator.Iterator.Decrement` | deps/asio/buffers_iterator.hpp:377-404 | Moves one byte back and stays canonical across empty buffers. |
| `BuffersIterator.Iterator.Advance` | deps/asio/buffers_iterator.hpp:407-485 | Terminates, moves by n, and stays canonical, for every destination in range. |
| `BuffersIterator.Iterator.Forward` | deps/asio/buffers_iterator.hpp:409-441 | The forward loop of advance. |
| `BuffersIterator.Iterator.Backward` | deps/asio/buffers_iterator.hpp:442-484 | The backward loop of advance; its out-of-bounds branch is unreachable. |
| `BuffersIterator.Iterator.At` | deps/asio/buffers_iterator.hpp:218-223 | Subscripting refers to byte position + difference. |
| `BuffersIterator.Iterator.Equal` | deps/asio/buffers_iterator.hpp:348-351 | True if and only if both cursors are in the same buffer at the same offset. |
| `BuffersIterator.Iterator.DistanceTo` | deps/asio/buffers_iterator.hpp:488-491 | Moving by the distance leads to the other iterator's cursor. |
| `BuffersIterator.SingleSteps` | deps/asio/buffers_iterator.hpp:354-404 | n increments, or -n decrements, move by n. |
| `BuffersIterator.AdvanceIsSingleSteps` | deps/asio/buffers_iterator.hpp:354-485 | The fast move ends in the same buffer, offset and position as the single moves. |
| `BuffersIterator.BeginPlusSizeIsEnd` | deps/asio/buffers_iterator.hpp:167-203 | begin advanced by buffer_size equals end. |
| `BuffersIterator.CopyAgreesWithIterator` | deps/asio/buffers_iterator.hpp:341-345 | Byte i that a copy writes is the byte that begin + i refers to in the source, and is found at begin + i in the target. |
| `ByteQueue.RunIsFifo` | deps/asio/basic_streambuf.hpp:214-346 | At every point of every run of the queue, what was there at first and all that was appended is all that was removed followed by what is there now. |
| `ByteQueue.SameSizes` | deps/asio/buffer.hpp:1628-1671 | Any two implementations given the same calls, each commit(n) after a prepare(x) with x >= n and any writes inside it, have input sequences of equal size throughout, and the same further prepare calls exceed the limit. |
| `ByteQueue.Unwritten` | deps/asio/buffer.hpp:1641-1657 | A byte of the prepared region that no write since covers is still what the space held after the prepare. |
| `ByteQueue.AgreedIsEqual` | deps/asio/buffer.hpp:1641-1657 | A byte of the prepared region is the same in both when it comes to the commit if and only if it was written since the prepare or was the same then. |
| `ByteQueue.SameContentsIff` | deps/asio/buffer.hpp:1628-1671 | Of two implementations given the same documented calls and the same input sequence at first, the input sequences are identical throughout if and only if each byte committed was written since its prepare or was the same in both spaces then. |
| `ByteQueue.WrittenAgrees` | deps/asio/buffer.hpp:1641-1657 | Calls that write all they commit are documented calls, and their committed bytes agree whatever the two spaces held. |
| `ByteQueue.SameContents` | deps/asio/buffer.hpp:1628-1671 | So when the writes since the prepare together cover the committed bytes, the input sequences are identical throughout. |
| `ByteQueue.RunsStopTogether` | deps/asio/buffer.hpp:1628-1639 | Of two implementations given the same documented calls, one that goes on until a call throws gets at least as far as the other, with input sequences of the same size; if the other stopped because a call threw, both stopped at that call, a prepare or the append of a character. |
| `ByteQueue.StaysPrepared` | deps/asio/buffer.hpp:1612-1639 | Writes after a prepare(x) leave at least x bytes of room. |
| `ByteQueue.SameWritten` | deps/asio/buffer.hpp:1641-1657 | A byte written since the prepare is the same in both, wherever and in however many writes. |
| `ByteQueue.SameAdded` | deps/asio/buffer.hpp:1653-1657 | A documented commit adds the same number of bytes in both, and the same bytes if and only if the bytes it commits agree. |
| `ByteQueue.NextCallAgrees` | deps/asio/buffer.hpp:1628-1639 | The next documented call returns normally in both or in neither. |
| `Streambuf.BasicStreambuf.constructor` | deps/asio/basic_streambuf.hpp:131-141 | Empty, with a put area of at most 128 bytes within the limit. |
| `Streambuf.BasicStreambuf.Input` | deps/asio/basic_streambuf.hpp:192-196 | data(): size() bytes, never more than max_size(). |
| `Streambuf.BasicStreambuf.Output` | deps/asio/basic_streambuf.hpp:214-219 | The put area: with the input sequence never more than max_size(). |
| `Streambuf.BasicStreambuf.Reserve` | deps/asio/basic_streambuf.hpp:308-346 | Throws if and only if size() + n > max_size(), whatever the shift and slack; otherwise there is room for n bytes and data() is unchanged. |
| `Streambuf.BasicStreambuf.ShiftAndGrow` | deps/asio/basic_streambuf.hpp:321-345 | The shift and the regrowth keep every byte; a throw leaves the positions but not the array. |
| `Streambuf.BasicStreambuf.Prepare` | deps/asio/basic_streambuf.hpp:214-219 | The returned region is in bounds, of size n and after data(); a throw preserves data() if and only if its bytes repeat with the distance of the move. |
| `Streambuf.BasicStreambuf.Commit` | deps/asio/basic_streambuf.hpp:233-238 | Appends the first min(n, room) bytes of the put area to the input sequence. |
| `Streambuf.BasicStreambuf.Consume` | deps/asio/basic_streambuf.hpp:247-254 | Removes the first min(n, size()) bytes and leaves the put area. |
| `Streambuf.BasicStreambuf.Underflow` | deps/asio/basic_streambuf.hpp:263-274 | The first byte of the input sequence, or eof exactly when there is none; the queue is unchanged. |
| `Streambuf.BasicStreambuf.Overflow` | deps/asio/basic_streambuf.hpp:283-306 | Appends the character; throws if and only if size() == max_size(), and then changes nothing; eof changes nothing; a full put area is extended by 128 bytes, or as many as the limit allows. |
| `Streambuf.BasicStreambuf.Extend` | deps/asio/basic_streambuf.hpp:287-300 | The room made in a full put area, and where the areas lie then. |
| `Streambuf.MovedInput` | deps/asio/basic_streambuf.hpp:321-340 | Exactly when a throwing reserve leaves data() intact. |
| `Streambuf.ThrowSpoilsData` | deps/asio/basic_streambuf.hpp:321-340 | A stream buffer with limit 3 whose data() turns from "AB" into "BB" when a prepare throws. |
| `Streambuf.Memmove` | deps/asio/basic_streambuf.hpp:325-325 | Overlapping move: the bytes read are those before the call. |
| `Streambuf.Apply` | deps/asio/basic_streambuf.hpp:214-306 | Every call, with any limit, returns normally exactly when the bounded queue allows it and the bytes it moves can be counted in an int, and then is a step of the queue; otherwise nothing changes, except by a prepare. |
| `Streambuf.SmallCountsAreCarried` | deps/asio/basic_streambuf.hpp:233-254 | Every commit and consume that moves less than 2^31 bytes, the count of a consume being less than 2^63, is carried. |
| `Streambuf.Run` | deps/asio/basic_streambuf.hpp:214-346 | Any sequence of calls on the class, with any limit, up to the first that throws or moves more than an int can count, is a run of the queue and first in, first out. |
| `Streambuf.PrepareForRead` | deps/asio/basic_streambuf.hpp:353-359 | Preparing the size that read_size_helper gives never throws, for every limit and capacity; the size is within the limit, the room, and the free capacity or 512, whichever is more, and as large as these allow; it is zero exactly when the limit is zero or the queue is full. |
| `DynamicBuffers.DynamicBuffer.constructor` | deps/asio/buffer.hpp:1552-1559 | Existing data is the input sequence. |
| `DynamicBuffers.DynamicBuffer.Prepare` | deps/asio/buffer.hpp:1628-1639 | Throws if and only if size() + n > max_size(), also when the data exceeds the limit from the start; otherwise there are exactly n bytes of room and data() is unchanged. |
| `DynamicBuffers.DynamicBuffer.Commit` | deps/asio/buffer.hpp:1653-1657 | Appends min(n, room) bytes and discards the rest. |
| `DynamicBuffers.DynamicBuffer.Consume` | deps/asio/buffer.hpp:1666-1671 | Removes min(n, size()) bytes from the front. |
| `DynamicBuffers.ApplyDynamic` | deps/asio/buffer.hpp:1779-1822 | Every call is a step of the queue or throws exactly as the queue does. |
| `DynamicBuffers.RunDynamic` | deps/asio/buffer.hpp:1779-1822 | Any sequence of calls up to the first that throws is a run of the queue, which is left as it was before that call. |
| `DynamicBuffers.WhereTheyStop` | deps/asio/buffer.hpp:1628-1639 | Two runs of the same documented calls stop at the same prepare, one that exceeds the limit in both, unless the first meets a count it cannot carry before. |
| `DynamicBuffers.WhatTheyHold` | deps/asio/buffer.hpp:1628-1671 | Up to there the input sequences have the same size, and are identical if and only if the committed bytes agree. |
| `DynamicBuffers.RunBoth` | deps/asio/basic_streambuf.hpp:214-254 | The stream buffer and a dynamic buffer, given the same documented calls, stop only at a prepare that exceeds the limit, and at the same one, unless the stream buffer meets a count it cannot carry; up to there their input sequences have the same size, and are identical if and only if each byte committed was written since its prepare or was the same in both spaces then. |
| `DynamicBuffers.UnwrittenIsDisciplined` | deps/asio/buffer.hpp:1641-1657 | The calls used below are documented ones, with nothing written before the last commit. |
| `DynamicBuffers.UnwrittenInStreambuf` | deps/asio/basic_streambuf.hpp:321-345 | After a fixed sequence of calls the stream buffer has committed a byte left over from earlier use. |
| `DynamicBuffers.UnwrittenInDynamicBuffer` | deps/asio/buffer.hpp:1628-1657 | After the same calls the dynamic buffer has committed a zero. |
| `SocketStreambuf.BasicSocketStreambuf.constructor` | deps/asio/basic_socket_streambuf.hpp:573-583 | Both areas empty, the get area behind the 8-byte putback zone of its 512-byte buffer. |
| `SocketStreambuf.Calm` | deps/asio/basic_socket_streambuf.hpp:497-530 | The number of attempts before the first timeout or fatal error. |
| `SocketStreambuf.BasicSocketStreambuf.Send` | deps/asio/basic_socket_streambuf.hpp:497-530 | Sends a block through partial sends and retries: exactly as much of it as the attempts before the first harmful one take; it succeeds if and only if that is all of it, and otherwise fails with the error of the harmful attempt, or waits. |
| `SocketStreambuf.SendSucceedsIff` | deps/asio/basic_socket_streambuf.hpp:497-530 | A block gets through if and only if it is taken by attempts that are each in time and either take something, or report would_block or try_again before a wait that succeeds. |
| `SocketStreambuf.SendFailsWith` | deps/asio/basic_socket_streambuf.hpp:497-530 | The first other attempt, if the block is not through, ends the call: with timed_out, the error of the send, or that of the wait. |
| `SocketStreambuf.SendWaits` | deps/asio/basic_socket_streambuf.hpp:497-530 | Until then the call goes on. |
| `SocketStreambuf.BasicSocketStreambuf.Overflow` | deps/asio/basic_socket_streambuf.hpp:475-547 | The attempts decide result, error code and the length sent; unless all is sent the put area is unchanged; otherwise wire and put area together have gained exactly the character, which is on the wire in unbuffered mode and alone in the put area else. |
| `SocketStreambuf.BasicSocketStreambuf.Sync` | deps/asio/basic_socket_streambuf.hpp:549-552 | Succeeds if and only if the attempts take the whole put area, and then empties it; otherwise leaves it, with what was taken on the wire. |
| `SocketStreambuf.BasicSocketStreambuf.SetBuf` | deps/asio/basic_socket_streambuf.hpp:554-565 | Buffering is turned off exactly when asked for and nothing is pending; nothing is sent. |
| `SocketStreambuf.BasicSocketStreambuf.Fill` | deps/asio/basic_socket_streambuf.hpp:448-453 | What a receive delivered, up to 504 bytes, is the get area behind the putback zone. |
| `SocketStreambuf.Idle` | deps/asio/basic_socket_streambuf.hpp:430-470 | The number of receives after which underflow tries again, before the first conclusive one. |
| `SocketStreambuf.BasicSocketStreambuf.Underflow` | deps/asio/basic_socket_streambuf.hpp:421-473 | With an empty get area: it waits exactly when every receive is to be tried again; otherwise the first conclusive receive decides: if it delivers bytes, the first 504 of them are the get area, behind the putback zone, and the first is returned; if not, it returns eof with the error of that receive. With characters left it changes nothing. |
| `SocketStreambuf.ReceiveEndsWith` | deps/asio/basic_socket_streambuf.hpp:430-470 | The first receive that is not in time, or reports anything else than would_block or try_again before a wait that succeeds, decides what is delivered, at most 504 bytes, the result and the error, case by case. |
| `SocketStreambuf.ReceiveWaits` | deps/asio/basic_socket_streambuf.hpp:430-470 | Until then the call goes on. |
| `SocketStreambuf.BasicSocketStreambuf.Sbumpc` | deps/asio/basic_socket_streambuf.hpp:421-473 | The first character of the get area, filled by one delivery when it was empty; nothing delivered is lost. |
| `SocketStreambuf.Perform` | deps/asio/basic_socket_streambuf.hpp:475-565 | A write, flush or switch succeeds if and only if there is room or the attempts take what has to be sent; the new put area, and what is on the wire, follow from the call alone. |
| `SocketStreambuf.RunWrites` | deps/asio/basic_socket_streambuf.hpp:475-565 | Over any run of character writes, flushes and switches to unbuffered mode up to the first call that cannot succeed, which was hindered, wire followed by put area is all that was written, in order, divided as the calls decide; the failed call has added exactly the part of the put area that its attempts took. |
| `SocketStreambuf.RetryAfterFailure` | deps/asio/basic_socket_streambuf.hpp:497-530 | A flush that fails and is repeated sends again what the attempts before the first harmful one took; it conserves the bytes if and only if they took nothing. |
| `SocketStreambuf.RetryDuplicates` | deps/asio/basic_socket_streambuf.hpp:497-530 | "AB" pending, one byte taken, a timeout, a repeated flush: the wire holds "AAB". |
| `SocketStreambuf.ReadsConserve` | deps/asio/basic_socket_streambuf.hpp:421-473 | After any number of reads, characters read followed by the get area are the bytes delivered, in order. |
| `SocketStreambuf.RunReads` | deps/asio/basic_socket_streambuf.hpp:421-473 | Over any run of reads, the characters read, the get area and the bytes received are what the deliveries of the conclusive receives give; it stops only at a read with an empty get area whose receives deliver nothing. |
| `CompletionConditions.GrantedRun` | deps/asio/completion_condition.hpp:45-98 | Over every error-free run that moves 1 to the granted number of bytes at a time: transfer_exactly(s) ends at s, transfer_at_least(m) in m..m+65535, and no run is longer than the bytes it moved. |
| `CompletionConditions.GrantedNext` | deps/asio/completion_condition.hpp:45-98 | A run can go on by k bytes if and only if k is in 1..65536 and, for transfer_at_least, the minimum is not reached, for transfer_exactly, the size is not exceeded. |
| `CompletionConditions.AllAttained` | deps/asio/completion_condition.hpp:45-53 | transfer_all grants 65536 bytes any number of times. |
| `CompletionConditions.AtLeastAttained` | deps/asio/completion_condition.hpp:55-76 | Every total in m..m+65535 is one at which some run of transfer_at_least(m) ends. |
| `CompletionConditions.ExactlyAttained` | deps/asio/completion_condition.hpp:78-98 | transfer_exactly(s) can end after s / 65536 operations, rounded up. |
| `CompletionConditions.ExactlyIsFewest` | deps/asio/completion_condition.hpp:78-98 | It never ends after fewer. |
| `CompletionConditions.KeepsPromise` | deps/asio/completion_condition.hpp:45-98 | When a condition grants no more, or nothing is left to transfer, its documented promise holds. |
| `CompletionConditions.PromiseMeans` | deps/asio/completion_condition.hpp:100-200 | The promises in numbers: transfer_all transfers all that is available, transfer_exactly(s) exactly s or all, transfer_at_least(m) m to m+65535 bytes or all. |
| `Sessions.SessionBounds` | deps/asio/impl/write.hpp:46-55 | All through a session the bytes moved are within the stream, the room and the bounds of the condition, and at least as many as the attempts for which the stream was ready. |
| `Sessions.SessionIsGranted` | deps/asio/completion_condition.hpp:45-98 | A session that moves something each time is a run of the condition alone. |
| `Sessions.SessionIsDecided` | deps/asio/impl/read.hpp:122-140 | Condition, carrier and stream decide every transfer: of two sessions, one goes on where the other one stopped. |
| `Sessions.AskIsUnique` | deps/asio/impl/read.hpp:126-128 | What a transfer asks for is determined by the transfers before it. |
| `Sessions.SpanBounds` | deps/asio/detail/consuming_buffers.hpp:104-113 | The bytes of the next m buffers that are not empty are never more than there are, some if there are some, and all if there are no more than m buffers. |
| `Sessions.SpanAt` | deps/asio/detail/consuming_buffers.hpp:95-116 | They depend on the position only, wherever the cursor stands among empty buffers. |
| `Sessions.EndedKeepsPromise` | deps/asio/completion_condition.hpp:45-98 | A session that is over without an error keeps the promise of its condition, and it is over once the stream was ready as often as the condition asks for bytes. |
| `Transfer.ConsumingBuffers.constructor` | deps/asio/detail/consuming_buffers.hpp:78-86 | Nothing consumed. |
| `Transfer.ConsumingBuffers.Prepare` | deps/asio/detail/consuming_buffers.hpp:95-116 | The next bytes of the sequence, in order, in at most max_buffers buffers, none of them empty: exactly as many as allowed, or all the bytes of the next max_buffers buffers that are not empty. |
| `Transfer.PrepareFrom` | deps/asio/detail/consuming_buffers.hpp:100-113 | The same for its loop, from any cursor. |
| `Transfer.ConsumingBuffers.Consume` | deps/asio/detail/consuming_buffers.hpp:119-143 | The cursor moves on by the bytes consumed, across empty buffers. |
| `Transfer.Write` | deps/asio/impl/write.hpp:39-57 | What the stream takes is the beginning of the flattened sequence; the writes made are exactly those up to the first error or until nothing more is granted or left, each offering all that is granted or fits into max_buffers buffers and moving what the stream is ready for, and the error is that of the last one; an error-free return keeps the promise of the condition; it returns if as many writes take something as the condition asks for bytes. |
| `Transfer.ReadBuffers` | deps/asio/impl/read.hpp:41-60 | The first bytes of the stream are stored at the first addresses of the sequence, one after the other; without overlap each of these addresses holds its byte, and no other memory changes; the reads made, the error, the promise and the return are as for `Write`. |
| `Transfer.ScatterLast` | deps/asio/impl/read.hpp:41-60 | Where buffers overlap, an address holds the last byte stored there. |
| `Transfer.ScatterElsewhere` | deps/asio/impl/read.hpp:41-60 | No other address changes. |
| `Transfer.ReadThenWrite` | deps/asio/impl/write.hpp:39-57 | Writing a sequence gives back the bytes that were read into it. |
| `Transfer.ReadSome` | deps/asio/impl/read.hpp:131-132 | One prepare, read and commit appends exactly what was delivered. |
| `Transfer.Available` | deps/asio/impl/read.hpp:126-128 | What may be asked for is within the room, the limit, and the free capacity or 512, whichever is more, and as large as these allow; it is zero exactly when the condition is met or the queue is full. |
| `Transfer.Read` | deps/asio/impl/read.hpp:110-141 | For any limit: no prepare throws; exactly the bytes delivered, the beginning of the stream, are appended to the input sequence; the reads made are exactly those up to the first error or until nothing more is granted or fits, each asking for what the limit, the room and the capacity of the vector at that time give and moving what the stream is ready for, and the error is that of the last one; an error-free return keeps the promise of the condition for the room there was; it returns if the stream has enough and as many reads deliver something as the condition asks for bytes. |
| `Transfer.SubSize` | deps/asio/impl/read.hpp:128-128 | The difference of two size_t, 2^64 more when it would be negative. |
| `Transfer.AvailableDynamic` | deps/asio/impl/read.hpp:126-128 | The same for a dynamic buffer, where the room is a difference that wraps around: it is zero exactly when the condition is met or size() equals max_size(), so not when the data exceeds the limit. |
| `Transfer.ReadDynamic` | deps/asio/impl/read.hpp:110-141 | Into a dynamic buffer: a prepare throws if and only if the data exceeds the limit at the start and the condition grants anything, and then nothing was read and the data is unchanged; otherwise the beginning of the stream is appended, and reads, error, promise and return are as for the stream buffer. |
| `ReadUntil.ReadUntil` | deps/asio/impl/read_until.hpp:146-203 | However the stream is cut into deliveries, the result is the end of the first occurrence of the delimiter in the old data followed by the stream; if it is there within the limit and as many reads deliver without error as it takes bytes to get to it, it is found, whatever comes later; not_found means a full buffer without it; it fails exactly when the last read made reports an error; every read was made because there was no occurrence yet and moved what the stream was ready for; no byte is lost. |
| `ReadUntil.ReadUntilLoop` | deps/asio/impl/read_until.hpp:154-202 | The same result from the loop that restarts each search at the last possible beginning of a match, with the reads made. |
| `ReadUntil.Search` | deps/asio/impl/read_until.hpp:160-186 | One search from a position before which no match can begin finds the first match of the whole input sequence, or a new such position: the end of the data, or where it ends in a partial match. |
| `ReadUntil.PartialSearch` | deps/asio/impl/read_until.hpp:119-143 | The first place from which on the delimiter matches fully, or partially up to the end of the data; none before it does either. |
| `ReadUntil.Compare` | deps/asio/impl/read_until.hpp:125-140 | The inner loop tells a full match, a partial match at the end and a difference apart. |
| `ReadUntil.StaysRuledOut` | deps/asio/impl/read_until.hpp:176-186 | Positions ruled out by a search stay ruled out when more data arrives, so no occurrence split over reads is missed. |
| `ReadUntil.MatchWithoutMore` | deps/asio/impl/read_until.hpp:176-186 | A match that begins in old data is a full or partial match of the old data. |
| `ReadUntil.FirstMatchStays` | deps/asio/impl/read_until.hpp:168-175 | The first match does not depend on the data after it. |
| `ReadUntil.FoundIfThere` | deps/asio/impl/read_until.hpp:168-192 | A correct result is the first occurrence, once the data needed for it was searched; also a failed or waiting result is then impossible. |
| `ReadUntil.Reached` | deps/asio/impl/read_until.hpp:195-201 | If the first m reads deliver without error, a call that fails or waits has searched at least m bytes of the stream, or all of it. |
| `ReadUntil.FoundAtEnd` | deps/asio/impl/read_until.hpp:154-202 | A match within the limit to which enough reads lead is the result. |
| `ReadUntil.ReadMore` | deps/asio/impl/read_until.hpp:195-199 | One read appends the next bytes of the stream, as many as it is ready for within what was asked for. |
| `ReadUntil.AfterRead` | deps/asio/impl/read_until.hpp:195-201 | After a read that follows a search without success, either the reading failed and nothing matched before it, or the search goes on from the same position without having missed a match. |
| `ReadUntil.Pass` | deps/asio/impl/read_until.hpp:154-202 | One pass ends with the result or keeps the invariant of the loop with one more read made. |

## Left out

- Residue's own start-up, configuration, logging, client registry and crypto: not part of this model, which is about the byte layer below them.
- Sockets, acceptors, timers, resolvers, io_context, strands and executors: they forward to services and a scheduler that have no part in the properties above.
- `basic_socket_streambuf` connect, close and the move operations: they do not promise to keep pending output (moves restart the put area at `pptr`, close ignores a failed flush).
- `basic_socket_streambuf` putback: the putback zone is never filled, so a character put back after an underflow is not modelled.
- The `buffer(...)` factories for arrays, vectors, strings and views: single truncations, all covered by `Buffer.Limit`.
- The two-element and single-buffer forms of `consuming_buffers`: the same operations on at most two buffers.
- `read_until` with a single character, a regular expression or a match condition, and the asynchronous forms of `read`, `write` and `read_until`: the same loops with another search, or cut at each operation.
- The iterator's postfix and comparison operators: one-line uses of the members above.
- `std::bad_alloc`: growing an array always succeeds.
- Streambuf.BasicStreambuf.Commit: requires the number of bytes moved to be at most 2^31-1, because the code casts it to int.
- Streambuf.BasicStreambuf.Consume: requires the number of bytes removed to be at most 2^31-1, for the same reason, and the count to be at most 2^63-1, because the code adds it to a pointer first.
- Streambuf.Run: stops at a commit or consume that would move more than 2^31-1 bytes, or a consume with a count above 2^63-1, because what the casts then do is not modelled; there is no bound on the limit, the size or any other count.
- DynamicBuffers.RunBoth: the same holds for the stream buffer of the two.
- ReadUntil.ReadUntil: the buffer is a stream buffer; for a dynamic buffer whose data exceeds its limit the wrap-around of `Transfer.ReadDynamic` would apply.
- Transfer.ReadBuffers: a `read_some` into several buffers is taken to fill them in their order, byte by byte.
- Transfer.ReadDynamic: requires size() and max_size() to be values of a 64-bit size_t.
- Transfer.ConsumingBuffers.Consume: requires that a transfer reports no more bytes than it was offered.
- DynamicBuffers.DynamicBuffer.Prepare: the container is a field; that it is a reference to a string or vector that others may change in between is not captured.
- BufferCopy.CopyLimited: requires target buffers not to overlap each other or the source, since `memcpy` does.
- BuffersIterator.Iterator.Advance: positions and distances are unbounded integers; a sequence of more than 2^63-1 bytes in all is not considered.
- Coroutine.RunReentry: local variables of the body, exceptions out of the middle of a yield statement, and copies of a coroutine made outside a fork are not captured; a reentry is followed for any finite number of steps.
