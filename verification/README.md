# Buffers, streams and coroutines of asio, verified

RtpPlayer carries its own copy of the asio headers. Six of them contain algorithms rather than
forwarding, and this project models those and proves what they are for:

* `asio/coroutine.hpp`: the pseudo-keywords `reenter`, `yield` and `fork` are macros that jump into the
  middle of nested loops with a `switch`. `SwitchMachine` is the fragment of C++ they expand to (case
  labels inside loops, gotos, `break` and `continue` through loops and switches), `CoroutineMacros` is
  the expansion itself, and `CoroutineDirect` says what a coroutine body means without any of it: a
  suspended coroutine holds its continuation. `CoroutineSimulation` and `CoroutineRuns` prove that both
  agree on whole runs of a coroutine and of all the copies its forks make, in any order of re-entry.
  Branch conditions are an arbitrary function of the actions performed so far and of `is_child()`, so
  the results hold for every program around the body. `CoroutineCompletion` says when completion is
  reported, and `CoroutineObject` is the class with the one integer, and a method that runs the expansion on it.
  `CoroutineLaws` says, without either meaning, what whole runs through the macros do: how often loops perform
  their action, what break and continue skip, what follows a yield, a return and a fork.
* `asio/buffer.hpp`: `Buffers` and `BufferCopy` model memory as one array and a buffer as an address and
  a size. All looping forms of `buffer_copy` are proved against one function, `Copied`, and the lemmas
  beside it say what that means for the bytes of the target, of the source and of the rest of memory.
* `asio/buffers_iterator.hpp`: `BuffersIterator` keeps the redundant state of the iterator (absolute
  position, block, offset, copy of the block) and proves it canonical after every operation.
* `asio/basic_streambuf.hpp`: `Streambuf` is the class with its moving positions over a reallocated
  array; `StreambufRuns` compares every run with a queue that knows where it lies in the array, and with a
  plain bounded queue.
* `asio/completion_condition.hpp` with the read loop that `asio/read.hpp` documents:
  `CompletionCondition` and `Read`.
* `asio/basic_socket_streambuf.hpp`: `SocketStreambuf` interleaves the timer handler with the
  completions of sends and receives, and `SocketSpec` says on snapshots what it may do and which
  accounts follow. How each operation ends is an arbitrary function of its number: it fails, or it moves
  between one byte and what was offered. An operation that is begun on a closed socket fails; one that was
  begun before the timer closed it may still have moved bytes. The clock never goes back, and a timer
  handler may run at any moment while a wait is outstanding, so expired and cancelled waits are both covered.

## Where the code and its documentation differ

* `asio/coroutine.hpp:194-196` says that a coroutine may also be implicitly terminated, when its body is
  left without a yield. After a `fork` in the same activation the parent does not report completion; it does after one more
  activation, which performs nothing. `ExitCompletes` gives the exact condition,
  `ForkThenEndIsNotComplete` an instance. That further activation is idle only if no `yield` stands on
  the line of the `fork`, because both would use the same number (`ParentRests`).
* `prepare` throws `length_error` exactly when it should, but it may already have moved the input
  sequence over its own beginning, while the positions stay. `Refused` is what is left. `RefusalHarmless`
  says for which sizes and offsets that is always harmless, `RefusalKeepsPeriodic` for which contents,
  and `RefusalDamages` is a short run into the harm. `overflow`, which also throws, is never in that situation.
* A buffered flush that fails after a partial send keeps the whole put area, so a later flush sends the
  first characters again. `FailureHarmless` says before the call when no failure can do that: exactly when
  the write needs no socket, there is at most one character to send, the timer has expired or the socket
  is closed. `FlushDamages` is a short run into the harm on the class, `FailureDamages` the same on
  snapshots, and `FlushAgain` says what is on the wire after the next flush that succeeds. An unbuffered
  stream is never in that situation (`UnbufferedAccounts`).
* `underflow` of the socket stream buffer answers eof when characters are left in the get area.
  Callers that follow the rules for `std::streambuf` do not call it then.

## Model

| member | source | states |
|---|---|---|
| CoroutineRuns.RunsAgree | asio/coroutine.hpp:281-318 | for every body, schedule and program, re-entering coroutines and their forked copies through the macros finishes exactly when the direct meaning does, with the same actions in order, the same answers of is_child at each, and corresponding coroutines left |
| CoroutineRuns.FreshRunsAgree | asio/coroutine.hpp:245 | in particular for a coroutine constructed with value 0 |
| CoroutineRuns.RunForward | asio/coroutine.hpp:281-318 | a finished direct run is matched by the macros |
| CoroutineRuns.RunBackward | asio/coroutine.hpp:281-318 | a finished run of the macros is matched by the direct meaning within the same number of steps |
| CoroutineRuns.Dispatch | asio/coroutine.hpp:281-292 | where reenter leads for every integer: termination, the start, just after a yield or fork even inside nested loops, or past the body |
| CoroutineRuns.ActivationForward | asio/coroutine.hpp:281-318 | one activation of the macros follows the direct activation of the coroutine that the integer encodes |
| CoroutineRuns.ActivationBackward | asio/coroutine.hpp:281-318 | when the expansion has halted, the direct activation has ended with the same actions and a coroutine encoded by the integer left behind |
| CoroutineRuns.ParentRests | asio/coroutine.hpp:311-318 | re-entering with the value of a forked parent skips the body if and only if no yield has the same label |
| CoroutineLaws.WhileRuns | asio/coroutine.hpp:294-309 | `while (c) yield a;` re-entered m times performs a min(m, n) times, where c holds while fewer than n actions are done; the value is then 0, the label, or -1 once m > n |
| CoroutineLaws.DoWhileRuns | asio/coroutine.hpp:294-309 | `do yield a; while (c);` does the same with max(n, 1) |
| CoroutineLaws.BreakLeavesLoop | asio/coroutine.hpp:294-309 | `if (d) break;` in the loop ends it as a false condition would |
| CoroutineLaws.BreakLeavesInnerLoop | asio/coroutine.hpp:294-309 | break leaves the innermost loop only |
| CoroutineLaws.BreakGoesOnBehindLoop | asio/coroutine.hpp:281-292 | `{ while (c) break; s }` performs exactly what s performs, for every s and schedule |
| CoroutineLaws.ContinueTestsAgain | asio/coroutine.hpp:294-309 | continue skips the rest of the body and tests the condition again |
| CoroutineLaws.ContinueTestsDoWhile | asio/coroutine.hpp:294-309 | the same in do-while |
| CoroutineLaws.IfChooses | asio/coroutine.hpp:281-292 | a body `if (c) s1 else s2` performs exactly what s1 performs when c holds at the start, and what s2 performs otherwise |
| CoroutineLaws.SequencePerforms | asio/coroutine.hpp:281-292 | `{ a; s }` performs a and then exactly what s performs after it |
| CoroutineLaws.ReturnLeavesBody | asio/coroutine.hpp:281-309 | return and yield break inside a loop complete the coroutine at once, with value -1 |
| CoroutineLaws.YieldResumesBehind | asio/coroutine.hpp:294-309 | after a yield or yield return the value is its label, and the next activation goes on with the statement behind it |
| CoroutineLaws.ForkRunsBoth | asio/coroutine.hpp:311-318 | after a fork the parent goes on to the yield behind it; its copy has the negated label, answers is_child and goes on at the same place |
| CoroutineLaws.LeavesOnce | asio/coroutine.hpp:281-318 | a run through the macros cannot finish in two ways |
| CoroutineSimulation.StepSimulated | asio/coroutine.hpp:294-318 | every step of the direct meaning is matched by one or more steps of the expansion |
| CoroutineSimulation.ExpansionKeepsLabels | asio/coroutine.hpp:294-318 | the switch of reenter finds exactly the labels of yield and fork in the expanded body, each followed by the code after its pseudo-keyword |
| CoroutineSimulation.PlacesAfterLabel | asio/coroutine.hpp:294-318 | the code after a label is a position of the body again, so that jumping to it restores the continuation |
| CoroutineSimulation.YieldBails | asio/coroutine.hpp:294-309 | after its statement a yield leaves the body and keeps its label |
| CoroutineSimulation.YieldTerminates | asio/coroutine.hpp:294-309 | yield break leaves the body with the value -1 |
| CoroutineSimulation.ForkSteps | asio/coroutine.hpp:311-318 | a fork runs its statement with the negated label and goes on with the label |
| CoroutineSimulation.ForkSeparates | asio/coroutine.hpp:247-251 | after a fork the parent runs with a positive value and the copy keeps the negative one, at the same continuation |
| CoroutineCompletion.ExitCompletes | asio/coroutine.hpp:264-276 | leaving the body without a yield completes the coroutine if and only if the activation did not fork |
| CoroutineCompletion.NothingLeftToDo | asio/coroutine.hpp:281-292 | a completed coroutine performs nothing and stays completed; a spent parent performs nothing and becomes completed |
| CoroutineCompletion.ForkThenEndIsNotComplete | asio/coroutine.hpp:194-196 | a body on which the documented termination fails |
| CoroutineObject.CoroutineRef.Assign | asio/coroutine.hpp:270 | assignment stores the value and marks it modified |
| CoroutineObject.CoroutineRef.Destroy | asio/coroutine.hpp:269 | an activation that assigned nothing leaves -1 |
| CoroutineObject.Execute | asio/coroutine.hpp:264-318 | one instruction of the expansion, executed on the object, leaves its integer, its modified flag and the copy a fork makes as the machine says |
| CoroutineObject.Reenter | asio/coroutine.hpp:264-318 | an activation on the object leaves the integer and the forked copies of the expansion, at every number of instructions |
| Buffers.BufferSize | asio/buffer.hpp:386-397 | the size of a buffer sequence is the number of addresses it flattens to |
| Buffers.FlatAt | asio/buffer.hpp:386-397 | the flattened bytes are the memory at the flattened addresses |
| BufferCopy.CopySequencesLimited | asio/buffer.hpp:2186-2231 | for any block boundaries copies min(target, source, limit) bytes in order and returns that number |
| BufferCopy.CopySequences | asio/buffer.hpp:1693-1735 | the same without a limit |
| BufferCopy.CopyFromSequence | asio/buffer.hpp:1402-1421 | the loop for one target buffer returns the count and leaves the memory of the general copy on a list of one |
| BufferCopy.CopyToSequence | asio/buffer.hpp:1573-1592 | the loop for one source buffer does the same |
| BufferCopy.CopyFromSequenceLimited | asio/buffer.hpp:1880-1885 | truncating the one target first gives the limited copy |
| BufferCopy.CopyToSequenceLimited | asio/buffer.hpp:2060-2065 | truncating the one source first gives the limited copy |
| BufferCopy.CopyBlock | asio/buffer.hpp:1295-1304 | copies the smaller of two sizes and writes nothing else |
| BufferCopy.CopyBlockLimited | asio/buffer.hpp:1761-1765 | copies at most the limit |
| BufferCopy.ExtendCopy | asio/buffer.hpp:2200-2228 | one round of the loop extends the copy, because the source bytes it reads are still the original ones |
| BufferCopy.SeparateMeans | asio/buffer.hpp:1295-1304 | what memcpy demands of two blocks: no address in both |
| BufferCopy.CopyDelivers | asio/buffer.hpp:2157-2185 | the first n target bytes become the first n source bytes and every byte outside them is unchanged |
| BufferCopy.CopyKeepsSource | asio/buffer.hpp:2157-2185 | the source reads the same afterwards |
| BufferCopy.CopyingBackChangesNothing | asio/buffer.hpp:2157-2185 | copying the bytes back leaves the memory as it is |
| BufferCopy.TruncationIsEnough | asio/buffer.hpp:718-758 | buffer(b, max) loses nothing that a copy of at most max bytes needs, on either side |
| BuffersIterator.PlaceUnique | asio/buffers_iterator.hpp:307-310 | a position has one canonical block and offset |
| BuffersIterator.PlaceIsFound | asio/buffers_iterator.hpp:366-412 | a search over the blocks finds the place of every position, and nothing else is its place |
| BuffersIterator.ByteAtPlace | asio/buffers_iterator.hpp:301-304 | the byte at the place of position p is byte p of the flattened sequence |
| BuffersIterator.Iterator.Begin | asio/buffers_iterator.hpp:127-144 | skips leading empty blocks to the place of position 0 |
| BuffersIterator.Iterator.End | asio/buffers_iterator.hpp:147-163 | stands at the total size |
| BuffersIterator.Iterator.Increment | asio/buffers_iterator.hpp:313-333 | moves to the place of the next position, past empty blocks |
| BuffersIterator.Iterator.Decrement | asio/buffers_iterator.hpp:336-363 | moves to the place of the previous position, past empty blocks |
| BuffersIterator.Iterator.Advance | asio/buffers_iterator.hpp:366-445 | terminates at the place of position + n for every n that stays in range |
| BuffersIterator.Iterator.AdvanceBackward | asio/buffers_iterator.hpp:400-443 | while distance remains an earlier block holds bytes, so the search ends |
| BuffersIterator.Iterator.Dereference | asio/buffers_iterator.hpp:301-304 | is the flattened byte at the position |
| BuffersIterator.Iterator.At | asio/buffers_iterator.hpp:178-183 | it[k] is the flattened byte at position + k |
| BuffersIterator.Iterator.Equal | asio/buffers_iterator.hpp:307-310 | comparing positions compares canonical places |
| BuffersIterator.Iterator.DistanceTo | asio/buffers_iterator.hpp:448-451 | the difference of the places in bytes |
| BuffersIterator.Iterator.Less | asio/buffers_iterator.hpp:276-279 | the order of the places |
| BuffersIterator.SameState | asio/buffers_iterator.hpp:307-310 | iterators at one position agree in everything but a stale buffer at the end |
| BuffersIterator.AdvanceIsSteps | asio/buffers_iterator.hpp:366-445 | advance(n) reaches the state of n increments or -n decrements |
| BuffersIterator.AdvancesAdd | asio/buffers_iterator.hpp:366-445 | advance(m) then advance(n) reaches the state of advance(m + n) |
| BuffersIterator.Traverse | asio/buffers_iterator.hpp:127-333 | going from begin to end visits the flattened bytes in order |
| Streambuf.Streambuf.constructor | asio/basic_streambuf.hpp:131-141 | starts empty with min(max_size, 128) characters of put area |
| Streambuf.Streambuf.Shift | asio/basic_streambuf.hpp:312-317 | what the move to the front does before the positions follow |
| Streambuf.Streambuf.Reserve | asio/basic_streambuf.hpp:299-337 | succeeds exactly when size + n fits, keeps the input sequence, and grows the put area no more than needed; when refused, keeps the positions |
| Streambuf.Streambuf.Prepare | asio/basic_streambuf.hpp:204-209 | is refused exactly when size() + n > max_size(); otherwise offers n characters behind the unchanged queue |
| Streambuf.RefusalHarmless | asio/basic_streambuf.hpp:312-332 | a refused reservation keeps every queue of a size exactly when its offset is 0 or at least that size |
| Streambuf.RefusalKeepsPeriodic | asio/basic_streambuf.hpp:312-332 | and keeps a given queue exactly when it repeats with the offset as period |
| Streambuf.RefusalDamages | asio/basic_streambuf.hpp:204-209 | a streambuf of at most 4 characters whose queue 2, 3, 4 a refused prepare(2) turns into 3, 4, 4 |
| Streambuf.Streambuf.Commit | asio/basic_streambuf.hpp:223-229 | moves min(n, available) characters from output to input |
| Streambuf.Streambuf.Consume | asio/basic_streambuf.hpp:238-245 | removes min(n, size) characters from the front |
| Streambuf.Streambuf.Underflow | asio/basic_streambuf.hpp:254-265 | makes characters put since the last time readable |
| Streambuf.Streambuf.Overflow | asio/basic_streambuf.hpp:274-297 | appends unless the queue is full; when it throws, the offset is 0 and nothing has moved |
| Streambuf.Streambuf.Sputc | asio/basic_streambuf.hpp:274-297 | single-character put appends to the queue or finds it full |
| Streambuf.Streambuf.Sbumpc | asio/basic_streambuf.hpp:254-265 | single-character get takes the front of the queue |
| Streambuf.Streambuf.ReadSizeHelper | asio/basic_streambuf.hpp:344-350 | what it returns always fits, and is 0 only if nothing is wanted or the buffer is full |
| StreambufRuns.Run | asio/basic_streambuf.hpp:182-337 | every run of prepare(x), fill, commit(n) with n <= x, consume, put and get, refusals included, is answered as by a queue that knows its offset and the end of its put area; without a damaging refusal as by a plain bounded queue |
| StreambufRuns.LikeThePlainQueue | asio/basic_streambuf.hpp:299-337 | as long as no append is refused while the queue is longer than the space in front of it, shifts and reallocations cannot be noticed |
| StreambufRuns.UnrefusedIsHarmless | asio/basic_streambuf.hpp:299-337 | in particular when no append is refused |
| StreambufRuns.QueueConserves | asio/basic_streambuf.hpp:62-67 | after every operation of every run, what was there and given is what was received and is left: given by the granted prefixes min(room, length) and puts, received as get answered it or consume passed over it; and size() <= max_size() |
| StreambufRuns.AnswersFollow | asio/basic_streambuf.hpp:182-337 | every answer of a run follows from what was given and received before it: an append or put is refused exactly when it would exceed max_size, and get and peek answer the oldest character left, or eof |
| StreambufRuns.DamagesWhenItCan | asio/basic_streambuf.hpp:299-337 | an operation counts as damaging exactly when refusing it spoils some queue of that length in that place |
| CompletionCondition.ExactlyIsExact | asio/completion_condition.hpp:78-98 | an error-free transfer never passes the size and ends with exactly it |
| CompletionCondition.AtLeastReaches | asio/completion_condition.hpp:57-76 | an error-free transfer ends once the minimum is reached, at most 65535 past it |
| CompletionCondition.AtLeastOvershoots | asio/completion_condition.hpp:57-76 | that bound is attained |
| CompletionCondition.TransfersStop | asio/completion_condition.hpp:46-98 | an error-free transfer of n steps exists if and only if n is at most the size or minimum; only under transfer_all can it go on for ever |
| CompletionCondition.TransfersAre | asio/completion_condition.hpp:46-98 | the error-free transfers are exactly the sequences of steps of 1 to 65536 bytes that fit the size under transfer_exactly, and that stay below the minimum before the last step under transfer_at_least |
| CompletionCondition.StepsOfExactly | asio/completion_condition.hpp:78-98 | a complete transfer of exactly s bytes can take n steps if and only if (s + 65535) / 65536 <= n <= s |
| Read.ReadUntil | asio/read.hpp:271-310 | the loop appends a prefix of the stream, never meets length_error, and stops on the condition, when full, or at the first read that fails, which it reports if and only if there was one; each read asks for all that is wanted and fits, or at least 512 bytes of it |
| Read.ReadAmounts | asio/read.hpp:271-310 | how many bytes are read under each condition |
| SocketStreambuf.SocketStreambuf.ExpiresAt | asio/basic_socket_streambuf.hpp:259-268 | keeps: pending exactly while one wait is outstanding, expired only at or past the expiry set now |
| SocketStreambuf.SocketStreambuf.ExpiresFromNow | asio/basic_socket_streambuf.hpp:288-297 | the same for a relative expiry |
| SocketStreambuf.SocketStreambuf.TimerHandler | asio/basic_socket_streambuf.hpp:494-517 | compares the clock with the current expiry, never a superseded one |
| SocketStreambuf.SocketStreambuf.AsyncSend | asio/basic_socket_streambuf.hpp:378-386 | no send starts once the timer has expired |
| SocketStreambuf.SocketStreambuf.AsyncReceive | asio/basic_socket_streambuf.hpp:304-313 | no receive starts once the timer has expired |
| SocketStreambuf.SocketStreambuf.Await | asio/basic_socket_streambuf.hpp:315-318 | waits through any number of timer handlers for the end of the operation, and keeps the timer protocol |
| SocketStreambuf.SocketStreambuf.Flush | asio/basic_socket_streambuf.hpp:371-398 | sends the whole put area through partial sends; fails only when an operation failed or the timer has expired, and then a proper prefix has been sent and the area is unchanged |
| SocketStreambuf.SocketStreambuf.Overflow | asio/basic_socket_streambuf.hpp:332-402 | wire and put area together gain exactly the accepted character; eof only for a failed operation or an expired timer, and then nothing is accepted and the account stays right if and only if nothing was sent |
| SocketStreambuf.SocketStreambuf.Sputc | asio/basic_socket_streambuf.hpp:332-402 | a single-character put goes to the put area while there is room, and otherwise through overflow |
| SocketStreambuf.SocketStreambuf.Sync | asio/basic_socket_streambuf.hpp:404-407 | flushes the put area, or gives up with the put area as it was |
| SocketStreambuf.SocketStreambuf.Setbuf | asio/basic_socket_streambuf.hpp:409-419 | turns buffering off only while the put area is empty, so nothing is lost |
| SocketStreambuf.SocketStreambuf.Underflow | asio/basic_socket_streambuf.hpp:300-330 | refills an empty get area with the next bytes that the peer sends, by one receive that is offered the 504 bytes from 8 to 512: as many as the socket moves, at most 504 and at most what is there; starts none once the timer has expired |
| SocketStreambuf.SocketStreambuf.Sbumpc | asio/basic_socket_streambuf.hpp:300-330 | delivers the front of the get area, refilled by one receive if it was empty; eof only for a failed operation or an expired timer |
| SocketSpec.FlushAgain | asio/basic_socket_streambuf.hpp:367-402 | a flush that succeeds after a failed one sends the whole put area again; the wire carries it once if and only if the failed one had sent nothing |
| SocketStreambuf.FlushAgain | asio/basic_socket_streambuf.hpp:404-407 | two flushes of the stream do exactly that |
| SocketSpec.RunAccounts | asio/basic_socket_streambuf.hpp:300-402 | in every run received = delivered + get area; what the writer was told it had put is on the wire or in the put area, in order and once, if and only if no put or flush was answered eof after part of the put area had gone out |
| SocketSpec.DeliversWhatIsSent | asio/basic_socket_streambuf.hpp:300-330 | in every run what the reader got, the get area and what the peer will still send make up, in order, what the get area and the peer held at the start |
| SocketSpec.PutsStay | asio/basic_socket_streambuf.hpp:332-402 | up to 512 puts into an empty put area succeed, stay there in order and begin no operation |
| SocketSpec.NextPutSends | asio/basic_socket_streambuf.hpp:368-402 | the 513th offers exactly those 512 characters to the socket first, or answers eof because the timer has expired |
| SocketSpec.PeekTellsGet | asio/basic_socket_streambuf.hpp:300-330 | a character that peek answers is what the next get answers |
| SocketSpec.RunWithoutFailedWrite | asio/basic_socket_streambuf.hpp:332-402 | in every run in which no put or flush is answered eof, wire and put area hold what was put |
| SocketSpec.WritesFailForAReason | asio/basic_socket_streambuf.hpp:300-402 | while no operation fails and the timer does not expire, no put, flush, get or peek is answered eof |
| SocketSpec.FailureHarmless | asio/basic_socket_streambuf.hpp:332-402 | whether every failure of a given put or flush leaves the account right, decided from the state before the call: if and only if it needs no socket, there is at most one character to send, the timer has expired or the socket is closed |
| SocketSpec.FailureDamages | asio/basic_socket_streambuf.hpp:371-398 | put area 1, 2 and an empty wire: a flush answered eof may leave 1 on the wire and both in the put area |
| SocketStreambuf.FlushDamages | asio/basic_socket_streambuf.hpp:332-407 | a new stream whose peer takes one character and then fails runs into that state by sputc, sputc, sync |
| SocketSpec.UnbufferedAccounts | asio/basic_socket_streambuf.hpp:332-366 | in every run of an unbuffered stream, failures included, the wire carries exactly what was put |
| SocketSpec.NoneBegunExpired | asio/basic_socket_streambuf.hpp:300-402 | no operation of a run begins once the timer has expired |
| SocketSpec.PastExpiryCloses | asio/basic_socket_streambuf.hpp:259-297 | an expiry at or before the current time closes the socket at once, unless a wait is outstanding |
| SocketSpec.ClosedForGood | asio/basic_socket_streambuf.hpp:494-517 | after the socket is closed nothing is sent or received in the rest of any run |
| SocketStreambuf.Run | asio/basic_socket_streambuf.hpp:259-441 | every run of the stream, whatever timer and socket do, answers and changes the stream as the snapshots allow, so the accounts above hold of it, those of what the peer sends included; no operation begins once the timer has expired |

## Left out

- Coroutine bodies: local variables, exceptions, `switch` statements of the user, and statements inside `yield` that themselves branch, loop or yield; the statement of a yield or fork is one action. A copy that a fork statement runs at once counts as an activation of its own after the parent's. Fork label 1 does not compile.
- CoroutineObject.Reenter: runs at most a given number of steps, since a body may loop for ever; RunsAgree covers all runs that finish.
- BufferCopy.CopySequencesLimited: demands that no target block overlaps a source block, even beyond the bytes that are copied; memcpy demands it for the copied bytes.
- The many `buffer(...)` overloads for arrays, vectors and strings, buffer debugging checks and `null_buffers`: no algorithm in them.
- Widths of machine integers (`pbump` with an `int`, `ptrdiff_t`): sizes are natural numbers.
- Read.ReadUntil: the implementation header of `read` is not part of this model; the loop follows its documentation. A successful read moves at least one byte. Old-style completion conditions with a bool result are not modelled.
- Streambuf.Streambuf.Resize: models every resize as a new array with the old characters in front, and the capacity as any that suffices; what pointers into the old array see is not modelled.
- StreambufRuns.Run: commits at most what was prepared and filled, as the documentation demands; Commit itself also covers larger counts. Bulk character operations and putback of std::streambuf are the library's own.
- SocketStreambuf.SocketStreambuf.Await: assumes that the operation ends after finitely many timer handlers.
- SocketStreambuf.Run: does not include connect and close, which discard buffered data, the resolver, or the destructor.
- Contents of the eight putback bytes of the socket stream buffer, and transfers of zero bytes that succeed.
- Socket, acceptor, timer, serial port and signal classes and their services, io_service, strands and the ffmpeg, libvpx and opus files: they forward to code that is not part of this model.
