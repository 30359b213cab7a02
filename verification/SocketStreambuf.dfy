/** asio::basic_socket_streambuf: a stream buffer over a socket, with a timer whose handler
    runs between the completions of sends and receives. */
module SocketStreambuf {
  import opened Wrappers
  import opened Buffers
  import opened CharTraits
  import opened SocketSpec

  datatype ErrorCode = NoError | WouldBlock | OperationAborted | Other(code: nat)

  /** How an operation on an open socket ends: with as many of n characters as are offered and there, but
      at least one, or with an error. */
  datatype Outcome = Moves(n: nat) | Fails(code: nat)

  /** How many of `size` characters move; 0 when the operation fails. */
  function Count(o: Outcome, size: nat): (n: nat)
    ensures n <= size
  {
    match o
    case Moves(n) => Min(Max(n, 1), size)
    case Fails(_) => 0
  }

  function Max(a: nat, b: nat): nat { if a < b then b else a }

  /** How many of `size` characters go out in operations i, i + 1, ... until all have or one fails. */
  function SentBy(peer: nat -> Outcome, i: nat, size: nat): (n: nat)
    ensures n <= size
    decreases size
  {
    var k := Count(peer(i), size);
    if k == 0 then 0 else k + SentBy(peer, i + 1, size - k)
  }

  /** Time has passed since v, and only sends were begun. */
  predicate Since(v: View, v': View) {
    && Elapses(v, v') && Begins(v, v')
    && (forall i | |v.offered| <= i < |v'.offered| :: v'.offered[i].operation.Send?)
  }

  lemma SinceSend(v: View, v': View, data: seq<Byte>)
    requires Elapses(v, v') && !v.timer.TimerHasExpired?
    requires v'.offered == v.offered + [Offer(Send(data), v.timer)]
    ensures Since(v, v')
  {
  }

  lemma SinceThen(v: View, w: View, v': View)
    requires Since(v, w) && Since(w, v')
    ensures Since(v, v')
    ensures w.open == (v.open && !w.timer.TimerHasExpired?) && (v.Dead() ==> w.Dead())
  {
  }

  /** The first operation begun since v offers this piece. */
  predicate OffersFirst(v: View, v': View, piece: seq<Byte>) {
    |v'.offered| > |v.offered| && v'.offered[|v.offered|] == Offer(Send(piece), v.timer)
  }

  /** Either nothing has happened since v, or this piece was offered first, and was sent in part or failed. */
  predicate Started(v: View, v': View, piece: seq<Byte>) {
    v' == v || (OffersFirst(v, v', piece) && (|v'.wire| > |v.wire| || v'.failures > v.failures))
  }

  /** A flush of v's put area is under way or over, and has sent so much of it. */
  predicate Flushed(peer: nat -> Outcome, v: View, v': View, sent: nat) {
    && Since(v, v') && sent <= |v.put| && v.failures <= v'.failures
    && v' == v.(wire := v.wire + v.put[..sent], failures := v'.failures,
                offered := v'.offered, open := v'.open, timer := v'.timer, clock := v'.clock)
    && (v.Dead() ==> sent == 0)
    && (v.open && v'.failures == v.failures ==>
          sent + SentBy(peer, |v'.offered|, |v.put| - sent) == SentBy(peer, |v.offered|, |v.put|))
    && (v.open && v'.failures > v.failures ==> sent == SentBy(peer, |v.offered|, |v.put|))
  }

  lemma FlushedWire(peer: nat -> Outcome, v: View, v': View, sent: nat)
    requires Flushed(peer, v, v', sent)
    ensures sent <= |v.put| && v'.put == v.put
  {
  }

  /** One more piece has been offered, and n characters of it have gone out. */
  lemma FlushedFurther(peer: nat -> Outcome, v: View, w: View, v': View, sent: nat, n: nat)
    requires Flushed(peer, v, w, sent) && w.failures == v.failures && !w.timer.TimerHasExpired?
    requires Since(w, v') && v'.offered == w.offered + [Offer(Send(v.put[sent..]), w.timer)]
    requires sent < |v.put| && n == if w.open then Count(peer(|w.offered|), |v.put| - sent) else 0
    requires v' == w.(wire := w.wire + v.put[sent..][..n], failures := w.failures + (if n > 0 then 0 else 1),
                      offered := v'.offered, open := v'.open, timer := v'.timer, clock := v'.clock)
    ensures Flushed(peer, v, v', sent + n)
    ensures Started(v, w, v.put) ==> Started(v, v', v.put)
  {
    hide Since;
    SinceThen(v, w, v');
    assert v.put[..sent + n] == v.put[..sent] + v.put[sent..][..n];
    assert v.wire + v.put[..sent + n] == w.wire + v.put[sent..][..n];
  }

  /** What lies beyond the stream: the timer service with the clock, and the socket with its peer. */
  datatype Io = Io(expiry: int, clock: int,
                   waits: nat,                    // timer waits begun whose handler has not run yet
                   open: bool,
                   incoming: seq<Byte>,           // what the peer will still send
                   operation: Option<Operation>,
                   begunOpen: bool,               // whether the socket was open when it was begun
                   offered: seq<Offer>,           // the operations begun so far
                   failures: nat,                 // how many of them have failed
                   wire: seq<Byte>,               // what the socket has accepted for sending
                   received: seq<Byte>)           // what the socket has handed over

  class SocketStreambuf {
    const getBuffer: array<Byte>
    const putBuffer: array<Byte>
    var eback: nat
    var gptr: nat
    var egptr: nat
    var pbase: nat
    var pptr: nat
    var epptr: nat
    var unbuffered: bool
    var ec: ErrorCode
    var bytesTransferred: nat
    var timerConstructed: bool
    var timerState: TimerState

    var io: Io
    const peer: nat -> Outcome    // how the operations will end, in the order they are begun

    // What the stream has accepted from its writer and delivered to its reader.
    ghost var accepted: seq<Byte>
    ghost var delivered: seq<Byte>

    /** The get area lies behind the putback reserve; the put area is null when unbuffered. */
    predicate Areas()
      reads this`eback, this`gptr, this`egptr, this`pbase, this`pptr, this`epptr, this`unbuffered
    {
      && getBuffer != putBuffer && getBuffer.Length == putBuffer.Length == BUFFER_SIZE
      && eback == 0 && PUTBACK_MAX <= gptr <= egptr <= BUFFER_SIZE
      && pbase == 0 && pptr <= epptr && epptr == if unbuffered then 0 else BUFFER_SIZE
    }

    /** A wait is outstanding exactly when the timer is pending; it has expired only at or past the expiry
        that is set now, and then the socket is closed. */
    predicate Timer()
      reads this
    {
      && io.waits == (if timerState.TimerIsPending? then 1 else 0)
      && (timerState.NoTimer? <==> !timerConstructed)
      && (timerState.TimerHasExpired? ==> io.expiry <= io.clock && !io.open)
    }

    predicate Valid()
      reads this
    {
      Areas() && Timer() && io.operation == None
    }

    function PutArea(): seq<Byte>
      requires Areas()
      reads this`eback, this`gptr, this`egptr, this`pbase, this`pptr, this`epptr, this`unbuffered, putBuffer
    {
      putBuffer[pbase..pptr]
    }

    function GetArea(): seq<Byte>
      requires Areas()
      reads this`eback, this`gptr, this`egptr, this`pbase, this`pptr, this`epptr, this`unbuffered, getBuffer
    {
      getBuffer[gptr..egptr]
    }

    ghost function Abs(): View
      requires Areas()
      reads this, getBuffer, putBuffer
    {
      View(io.wire, PutArea(), GetArea(), accepted, delivered, io.received, io.incoming, io.offered, io.failures,
           unbuffered, io.open, timerState, io.expiry, io.clock)
    }

    /** Why the stream answers eof, given the number of failures before. */
    ghost predicate GaveUp(failuresBefore: nat)
      reads this
    {
      && ec != NoError
      && (io.failures == failuresBefore + 1 ||
          (io.failures == failuresBefore && timerState == TimerHasExpired && ec == OperationAborted))
    }

    /** A stream on a socket that connect has opened, or on none. */
    constructor (connected: bool, bytes: seq<Byte>, now: int, outcomes: nat -> Outcome)
      ensures Valid() && fresh(getBuffer) && fresh(putBuffer) && io.incoming == bytes && peer == outcomes
      ensures Abs() == View([], [], [], [], [], [], bytes, [], 0, false, connected, NoTimer, io.expiry, now)
      ensures Abs().Sent() && Abs().Kept()
    {
      getBuffer, putBuffer, peer := new Byte[BUFFER_SIZE], new Byte[BUFFER_SIZE], outcomes;
      unbuffered, ec, bytesTransferred := false, NoError, 0;
      timerConstructed, timerState := false, NoTimer;
      io := Io(0, now, 0, connected, bytes, None, connected, [], 0, [], []);
      accepted, delivered := [], [];
      new;
      InitBuffers();
    }

    // ---------- the timer ----------

    method Now() returns (now: int)
      modifies this`io
      ensures old(io.clock) <= now && io == old(io).(clock := now)
    {
      now :| io.clock <= now;
      io := io.(clock := now);
    }

    /** Runs from start_timer, or after a wait has ended for whatever reason. */
    method TimerHandler()
      requires timerConstructed && io.waits == 0
      modifies this`io, this`timerState
      ensures Timer() && old(io.clock) <= io.clock
      ensures timerState == if io.clock < io.expiry then TimerIsPending else TimerHasExpired
      ensures io.open == (old(io.open) && timerState != TimerHasExpired)
      ensures io == old(io).(clock := io.clock, waits := io.waits, open := io.open)
    {
      var now := Now();
      if now < io.expiry {
        timerState := TimerIsPending;
        io := io.(waits := io.waits + 1);
      } else {
        timerState := TimerHasExpired;
        io := io.(open := false);
      }
    }

    method StartTimer()
      requires timerConstructed && (timerState.TimerIsPending? <==> io.waits == 1) && io.waits <= 1
      modifies this`io, this`timerState
      ensures Timer() && old(io.clock) <= io.clock
      ensures old(timerState.TimerIsPending?) ==> timerState.TimerIsPending? && io == old(io)
      ensures !old(timerState.TimerIsPending?) ==>
        timerState == if io.clock < io.expiry then TimerIsPending else TimerHasExpired
      ensures io.open == (old(io.open) && timerState != TimerHasExpired)
      ensures io == old(io).(clock := io.clock, waits := io.waits, open := io.open)
    {
      if timerState != TimerIsPending {
        TimerHandler();
      }
    }

    /** Setting an expiry cancels the outstanding wait, whose handler then still has to run. */
    method ExpiresAt(time: int)
      requires Valid()
      modifies this`io, this`timerConstructed, this`timerState
      ensures Valid() && io.expiry == time && timerState != NoTimer
      ensures timerState.TimerHasExpired? ==> time <= io.clock
      ensures Expires(old(Abs()), Abs())
    {
      hide SocketSpec.Expires;
      ghost var v := Abs();
      timerConstructed := true;
      io := io.(expiry := time);
      StartTimer();
      Expired(v);
    }

    method ExpiresFromNow(duration: int)
      requires Valid()
      modifies this`io, this`timerConstructed, this`timerState
      ensures Valid() && old(io.clock) + duration <= io.expiry <= io.clock + duration && timerState != NoTimer
      ensures timerState.TimerHasExpired? ==> io.expiry <= io.clock
      ensures Expires(old(Abs()), Abs())
    {
      hide SocketSpec.Expires, SocketStreambuf.Areas, SocketStreambuf.PutArea, SocketStreambuf.GetArea;
      ghost var v := Abs();
      timerConstructed := true;
      var now := Now();
      io := io.(expiry := now + duration);
      StartTimer();
      Expired(v);
    }

    /** What start_timer leaves, in terms of what may be done to a snapshot. */
    lemma Expired(v: View)
      requires Areas() && PutArea() == v.put && GetArea() == v.get
      requires io.wire == v.wire && io.received == v.received && accepted == v.accepted && delivered == v.delivered
      requires io.offered == v.offered && io.failures == v.failures && unbuffered == v.unbuffered
      requires io.incoming == v.incoming
      requires v.clock <= io.clock && io.open == (v.open && timerState != TimerHasExpired)
      requires timerState == if v.timer.TimerIsPending? || io.clock < io.expiry then TimerIsPending else TimerHasExpired
      ensures Expires(v, Abs())
    {
    }

    // ---------- asynchronous operations ----------

    /** No operation is begun once the timer has expired. */
    method AsyncSend(data: seq<Byte>)
      requires io.operation == None && !timerState.TimerHasExpired? && data != []
      modifies this`io
      ensures UnderWay()
      ensures io == old(io).(operation := Some(Send(data)), begunOpen := io.open,
                             offered := old(io.offered) + [Offer(Send(data), timerState)])
    {
      io := io.(operation := Some(Send(data)), begunOpen := io.open,
                offered := io.offered + [Offer(Send(data), timerState)]);
    }

    method AsyncReceive(area: Buffer)
      requires io.operation == None && !timerState.TimerHasExpired?
      requires 0 < area.size && area.data + area.size <= getBuffer.Length
      modifies this`io
      ensures UnderWay()
      ensures io == old(io).(operation := Some(Receive(area)), begunOpen := io.open,
                             offered := old(io.offered) + [Offer(Receive(area), timerState)])
    {
      io := io.(operation := Some(Receive(area)), begunOpen := io.open,
                offered := io.offered + [Offer(Receive(area), timerState)]);
    }

    method IoHandler(e: ErrorCode, n: nat)
      modifies this`ec, this`bytesTransferred
      ensures ec == e && bytesTransferred == n
    {
      ec := e;
      bytesTransferred := n;
    }

    /** An operation is under way: the last one begun. */
    predicate UnderWay()
      reads this
    {
      && io.offered != []
      && io.operation == Some(io.offered[|io.offered| - 1].operation)
      && match io.operation.value
         case Send(data) => data != []
         case Receive(area) => 0 < area.size && area.data + area.size <= getBuffer.Length
    }

    /** How many characters the operation will move.  One begun on a closed socket fails; one begun on an open
        socket may have moved characters already when the socket is closed. */
    function Coming(op: Operation): nat
      requires io.offered != []
      reads this
    {
      if !io.begunOpen then 0
      else
        var outcome := peer(|io.offered| - 1);
        match op
        case Send(data) => Count(outcome, |data|)
        case Receive(area) => Min(Count(outcome, area.size), |io.incoming|)
    }

    /** What the end of `op` did with n characters, given how things and the get buffer were before. */
    ghost predicate Ended(op: Operation, n: nat, before: Io, bytesBefore: seq<Byte>)
      reads this, getBuffer
    {
      && ec != WouldBlock && bytesTransferred == n && (ec == NoError <==> n > 0)
      && io == before.(operation := None, failures := before.failures + (if n > 0 then 0 else 1),
                       wire := io.wire, received := io.received, incoming := io.incoming,
                       clock := io.clock, waits := io.waits, open := io.open)
      && match op
         case Send(data) =>
           && n <= |data| && io.wire == before.wire + data[..n]
           && io.received == before.received && io.incoming == before.incoming && getBuffer[..] == bytesBefore
         case Receive(area) =>
           && n <= area.size && area.data + n <= getBuffer.Length
           && io.wire == before.wire && io.received == before.received + getBuffer[area.data..area.data + n]
           && before.incoming == getBuffer[area.data..area.data + n] + io.incoming
           && (n == 0 ==> getBuffer[..] == bytesBefore)
    }

    method Store(at: nat, bytes: seq<Byte>)
      requires at + |bytes| <= getBuffer.Length
      modifies getBuffer
      ensures getBuffer[at..at + |bytes|] == bytes
    {
      forall i | 0 <= i < |bytes| {
        getBuffer[at + i] := bytes[i];
      }
      forall i | 0 <= i < |bytes|
        ensures getBuffer[at..at + |bytes|][i] == bytes[i]
      {
        assert getBuffer[at..at + |bytes|][i] == getBuffer[at + i];
      }
    }

    /** The operation ends: it fails, or it moves at least one byte and at most what was offered. */
    method Complete()
      requires UnderWay()
      modifies this`io, this`ec, this`bytesTransferred, getBuffer
      ensures io.clock == old(io.clock) && io.waits == old(io.waits) && io.open == old(io.open)
      ensures old(io.begunOpen && peer(|io.offered| - 1).Fails?) ==> ec == Other(peer(|old(io.offered)| - 1).code)
      ensures Ended(old(io.operation.value), old(Coming(io.operation.value)), old(io), old(getBuffer[..]))
    {
      var n := Coming(io.operation.value);
      if n == 0 {
        var outcome := peer(|io.offered| - 1);
        io := io.(failures := io.failures + 1);
        IoHandler(if io.begunOpen && outcome.Fails? then Other(outcome.code) else OperationAborted, 0);
        assert io.operation.value.Send? ==> io.wire + io.operation.value.data[..0] == io.wire;
      } else {
        match io.operation.value {
          case Send(data) =>
            io := io.(wire := io.wire + data[..n]);
          case Receive(area) =>
            Store(area.data, io.incoming[..n]);
            io := io.(received := io.received + io.incoming[..n], incoming := io.incoming[n..]);
        }
        IoHandler(NoError, n);
      }
      io := io.(operation := None);
    }

    /** io_service::run_one: the handler of the timer wait, or that of the operation. */
    method RunOne(timerIsNext: bool)
      requires UnderWay() && Timer()
      modifies this`io, this`timerState, this`ec, this`bytesTransferred, getBuffer
      ensures Timer() && old(io.clock) <= io.clock && io.open == (old(io.open) && timerState != TimerHasExpired)
      ensures old(timerState).TimerHasExpired? ==> timerState.TimerHasExpired?
      ensures if timerIsNext && old(io.waits) > 0
        then io == old(io).(clock := io.clock, waits := io.waits, open := io.open) && ec == old(ec)
             && getBuffer[..] == old(getBuffer[..])
        else Ended(old(io.operation.value), old(Coming(io.operation.value)), old(io), old(getBuffer[..]))
    {
      if timerIsNext && io.waits > 0 {
        io := io.(waits := io.waits - 1);
        TimerHandler();
      } else {
        Complete();
      }
    }

    /** do run_one() while (ec == would_block).  Any number of timer handlers run before the operation ends. */
    method Await()
      requires UnderWay() && Timer()
      modifies this`io, this`timerState, this`ec, this`bytesTransferred, getBuffer
      ensures Timer() && old(io.clock) <= io.clock && io.open == (old(io.open) && timerState != TimerHasExpired)
      ensures Ended(old(io.operation.value), old(Coming(io.operation.value)), old(io), old(getBuffer[..]))
    {
      ghost var op, n, bytes := io.operation.value, Coming(io.operation.value), getBuffer[..];
      ec := WouldBlock;
      var timerRuns: nat := *;
      var again := true;
      while again
        invariant Timer() && old(io.clock) <= io.clock && io.open == (old(io.open) && timerState != TimerHasExpired)
        invariant if again
          then io == old(io).(clock := io.clock, waits := io.waits, open := io.open) && ec == WouldBlock
               && getBuffer[..] == bytes
          else Ended(op, n, old(io), bytes)
        decreases again, timerRuns
      {
        RunOne(timerRuns > 0);
        timerRuns := if timerRuns > 0 then timerRuns - 1 else 0;
        again := ec == WouldBlock;
      }
    }

    // ---------- the stream buffer ----------

    method InitBuffers()
      requires getBuffer != putBuffer && getBuffer.Length == putBuffer.Length == BUFFER_SIZE
      modifies this`eback, this`gptr, this`egptr, this`pbase, this`pptr, this`epptr
      ensures Areas() && GetArea() == [] && PutArea() == []
    {
      eback, gptr, egptr := 0, PUTBACK_MAX, PUTBACK_MAX;
      if unbuffered {
        pbase, pptr, epptr := 0, 0, 0;
      } else {
        pbase, pptr, epptr := 0, 0, BUFFER_SIZE;
      }
    }

    /** How many characters a receive that is begun now will bring: at most 504, as many as there are, and as many
        as the socket then moves. */
    function Arriving(io: Io): nat {
      if io.open then Min(Count(peer(|io.offered|), 504), |io.incoming|) else 0
    }

    method ReceiveAndWait(area: Buffer)
      requires io.operation == None && Timer() && timerState != TimerHasExpired
      requires area.size == 504 && area.data + 504 <= getBuffer.Length
      modifies this`io, this`timerState, this`ec, this`bytesTransferred, getBuffer
      ensures Timer() && old(io.clock) <= io.clock && io.open == (old(io.open) && timerState != TimerHasExpired)
      ensures bytesTransferred == Arriving(old(io)) && (ec == NoError <==> bytesTransferred > 0)
      ensures area.data + bytesTransferred <= getBuffer.Length
      ensures var bytes := getBuffer[area.data..area.data + bytesTransferred];
        && old(io.incoming) == bytes + io.incoming
        && io == old(io).(received := old(io.received) + bytes, incoming := io.incoming,
                          failures := old(io.failures) + (if ec == NoError then 0 else 1),
                          offered := old(io.offered) + [Offer(Receive(area), old(timerState))],
                          begunOpen := io.begunOpen, clock := io.clock, waits := io.waits, open := io.open)
      ensures ec != NoError ==> getBuffer[..] == old(getBuffer[..])
    {
      AsyncReceive(area);
      Await();
    }

    /** Receives into the get area behind the putback reserve. */
    method ReceiveSome() returns (ok: bool)
      requires Valid() && timerState != TimerHasExpired && GetArea() == []
      modifies this`io, this`timerState, this`ec, this`bytesTransferred, getBuffer
      modifies this`eback, this`gptr, this`egptr
      ensures Valid() && io.wire == old(io.wire) && io.expiry == old(io.expiry) && old(io.clock) <= io.clock
      ensures io.open == (old(io.open) && timerState != TimerHasExpired)
      ensures if ok then ec == NoError && io.failures == old(io.failures)
              else ec != NoError && io.failures == old(io.failures) + 1
      ensures (ok <==> GetArea() != []) && (ok ==> old(io.open))
      ensures io.received == old(io.received) + GetArea() && old(io.incoming) == GetArea() + io.incoming
      ensures |GetArea()| == Arriving(old(io))
      ensures io.offered == old(io.offered) + [Offer(Receive(Buffer(8, 504)), old(timerState))]
    {
      ReceiveAndWait(Plus(Buffer(0, getBuffer.Length), PUTBACK_MAX));
      if ec != NoError {
        return false;
      }
      eback, gptr, egptr := 0, PUTBACK_MAX, PUTBACK_MAX + bytesTransferred;
      return true;
    }

    /** Fills an exhausted get area.  A call with characters left answers eof. */
    method Underflow() returns (c: IntType)
      requires Valid()
      modifies this`io, this`timerState, this`ec, this`bytesTransferred, getBuffer
      modifies this`eback, this`gptr, this`egptr
      ensures Valid() && io.wire == old(io.wire) && io.expiry == old(io.expiry) && old(io.clock) <= io.clock
      ensures io.open == (old(io.open) && timerState != TimerHasExpired)
      ensures old(GetArea()) != [] ==> c == EOF && Abs() == old(Abs())
      ensures old(GetArea()) == [] ==>
        io.received == old(io.received) + GetArea() && old(io.incoming) == GetArea() + io.incoming
      // as many as one receive brings
      ensures old(GetArea()) == [] ==>
        |GetArea()| == if old(timerState) == TimerHasExpired then 0 else Arriving(old(io))
      ensures old(GetArea()) == [] ==> c == if GetArea() == [] then EOF else GetArea()[0]
      ensures old(GetArea()) == [] ==> if c == EOF then GaveUp(old(io.failures)) else io.failures == old(io.failures)
      ensures old(timerState) == TimerHasExpired ==> timerState == TimerHasExpired
      ensures old(timerState) == TimerHasExpired || !old(io.open) ==> c == EOF
      ensures io.offered == old(io.offered) +
        if old(GetArea()) == [] && old(timerState) != TimerHasExpired
        then [Offer(Receive(Buffer(8, 504)), old(timerState))] else []
    {
      if gptr != egptr {
        return EOF;
      }
      if timerState == TimerHasExpired {
        ec := OperationAborted;
        return EOF;
      }
      var ok := ReceiveSome();
      c := if ok then getBuffer[gptr] else EOF;
    }

    method SendAndWait(data: seq<Byte>)
      requires io.operation == None && Timer() && timerState != TimerHasExpired && data != []
      modifies this`io, this`timerState, this`ec, this`bytesTransferred, getBuffer
      ensures Timer() && old(io.clock) <= io.clock && io.open == (old(io.open) && timerState != TimerHasExpired)
      ensures bytesTransferred == if old(io.open) then Count(peer(|old(io.offered)|), |data|) else 0
      ensures (ec == NoError <==> bytesTransferred > 0) && getBuffer[..] == old(getBuffer[..])
      ensures io == old(io).(wire := old(io.wire) + data[..bytesTransferred],
                             failures := old(io.failures) + (if ec == NoError then 0 else 1),
                             offered := old(io.offered) + [Offer(Send(data), old(timerState))],
                             begunOpen := io.begunOpen,
                             clock := io.clock, waits := io.waits, open := io.open)
    {
      AsyncSend(data);
      Await();
    }

    /** Sends one piece of the put area, or a single character. */
    method SendSome(data: seq<Byte>)
      requires Valid() && timerState != TimerHasExpired && data != []
      modifies this`io, this`timerState, this`ec, this`bytesTransferred, getBuffer
      ensures Valid() && Since(old(Abs()), Abs())
      ensures io.offered == old(io.offered) + [Offer(Send(data), old(timerState))]
      ensures bytesTransferred == if old(io.open) then Count(peer(|old(io.offered)|), |data|) else 0
      ensures ec == NoError <==> bytesTransferred > 0
      ensures Abs() == old(Abs()).(wire := old(io.wire) + data[..bytesTransferred],
                                   failures := old(io.failures) + (if ec == NoError then 0 else 1),
                                   offered := io.offered, open := io.open, timer := timerState, clock := io.clock)
    {
      hide Since;
      ghost var v, bytes := Abs(), getBuffer[..];
      assert v.get == bytes[gptr..egptr];
      SendAndWait(data);
      assert getBuffer[..] == bytes && GetArea() == bytes[gptr..egptr];
      SinceSend(v, Abs(), data);
    }

    ghost predicate Flushing(v: View, sent: nat, first: seq<Byte>)
      reads this, getBuffer, putBuffer
    {
      Valid() && Flushed(peer, v, Abs(), sent) && Started(v, Abs(), first)
    }

    /** One round of a flush. */
    method SendPiece(ghost v: View, ghost sent: nat, buffer: Buffer)
      requires Flushing(v, sent, v.put) && io.failures == v.failures && timerState != TimerHasExpired
      requires buffer == Plus(Buffer(pbase, |v.put|), sent) && buffer.size > 0
      modifies this`io, this`timerState, this`ec, this`bytesTransferred, getBuffer
      ensures bytesTransferred <= buffer.size && Flushing(v, sent + bytesTransferred, v.put)
      ensures if ec == NoError then bytesTransferred > 0 && io.failures == v.failures
              else bytesTransferred == 0 && io.failures == v.failures + 1
    {
      hide Flushed, Since, Started;
      ghost var w := Abs();
      FlushedWire(peer, v, w, sent);
      var piece := putBuffer[buffer.data..buffer.data + buffer.size];
      assert piece == v.put[sent..] && |piece| == |v.put| - sent;
      SendSome(piece);
      FlushedFurther(peer, v, w, Abs(), sent, bytesTransferred);
    }

    /** The timer has expired before the next round. */
    method Abort(ghost v: View, ghost sent: nat, ghost first: seq<Byte>)
      requires Flushing(v, sent, first) && io.failures == v.failures && timerState == TimerHasExpired
      modifies this`ec
      ensures Flushing(v, sent, first) && GaveUp(v.failures)
    {
      ec := OperationAborted;
    }

    /** Sends the whole put area, in as many pieces as the socket takes.  When it fails, a proper
        prefix has gone out, but the put area still holds everything. */
    method Flush() returns (ok: bool, ghost sent: nat)
      requires Valid()
      modifies this`io, this`timerState, this`ec, this`bytesTransferred, getBuffer
      ensures Flushing(old(Abs()), sent, old(PutArea()))
      ensures ok <==> sent == |old(PutArea())|
      ensures if ok then io.failures == old(io.failures) else GaveUp(old(io.failures))
      ensures old(PutArea()) == [] ==> io.offered == old(io.offered)
    {
      hide SocketStreambuf.Flushing, SocketStreambuf.Timer, SocketStreambuf.Areas, SocketStreambuf.PutArea;
      ghost var v := Abs();
      FlushStarts(v.put);
      var buffer := Buffer(pbase, pptr - pbase);
      sent := 0;
      while buffer.size > 0
        invariant Flushing(v, sent, v.put) && io.failures == v.failures
        invariant sent <= |v.put| && buffer == Plus(Buffer(pbase, |v.put|), sent)
        invariant v.put == [] ==> io.offered == v.offered
      {
        if timerState == TimerHasExpired {
          Abort(v, sent, v.put);
          return false, sent;
        }
        SendPiece(v, sent, buffer);
        if ec != NoError {
          return false, sent;
        }
        sent := sent + bytesTransferred;
        buffer := Plus(buffer, bytesTransferred);
      }
      return true, sent;
    }

    lemma FlushStarts(first: seq<Byte>)
      requires Valid()
      ensures Flushing(Abs(), 0, first) && pptr - pbase == |PutArea()|
    {
      assert io.wire + PutArea()[..0] == io.wire;
    }

    /** When the timer has not expired, a flush on an open socket has sent exactly what the socket takes. */
    lemma FlushSends(v: View, sent: nat)
      requires Flushing(v, sent, v.put) && v.open && timerState != TimerHasExpired
      requires io.failures == v.failures ==> sent == |v.put|
      ensures sent == SentBy(peer, |v.offered|, |v.put|)
    {
    }

    /** Accepts c, or only flushes when c is eof; answers eof exactly when that fails.  Then nothing is
        accepted and the put area is as before, although its first `sent` characters have gone out. */
    method Overflow(c: IntType) returns (r: IntType, ghost sent: nat)
      requires Valid()
      modifies this`io, this`timerState, this`ec, this`bytesTransferred, getBuffer
      modifies this`pbase, this`pptr, this`epptr, this`accepted, putBuffer
      ensures if r == EOF then GivenUp(old(Abs()), c, sent) else Wrote(old(Abs()), c)
      ensures r != EOF ==> r == if c == EOF then NotEof(c) else c
      ensures !unbuffered && old(io.open) && timerState != TimerHasExpired ==>
        var total := SentBy(peer, |old(io.offered)|, |old(PutArea())|);
        (r != EOF <==> total == |old(PutArea())|) && (r == EOF ==> sent == total)
      ensures old(Abs().Sent()) ==> (Abs().Sent() <==> r != EOF || sent == 0)
    {
      ghost var v := Abs();
      if unbuffered {
        r := OverflowUnbuffered(c);
        sent := 0;
      } else {
        r, sent := OverflowBuffered(c);
      }
      if r == EOF {
        SentAfterFailure(v, Abs(), sent);
      } else {
        SentAfterWrite(v, Abs(), c);
      }
    }

    /** c has not been written, although the first characters of the put area that v had have gone out. */
    ghost predicate GivenUp(v: View, c: IntType, sent: nat)
      reads this, getBuffer, putBuffer
    {
      && Flushing(v, sent, v.FirstPiece(Chars(c))) && GaveUp(v.failures)
      && (!v.timer.TimerHasExpired? ==> OffersFirst(v, Abs(), v.FirstPiece(Chars(c))))
      && if unbuffered then c != EOF && sent == 0 else sent < |v.put|
    }

    /** c has been written after the put area that v had, which has gone out. */
    ghost predicate Wrote(v: View, c: IntType)
      reads this, getBuffer, putBuffer
    {
      && Valid() && Since(v, Abs()) && (c == EOF && v.put == [] ==> io.offered == v.offered)
      && (v.put != [] || (unbuffered && c != EOF) ==> !v.Dead() && OffersFirst(v, Abs(), v.FirstPiece(Chars(c))))
      && Abs() == v.(wire := (v.wire + v.put) + (if unbuffered then Chars(c) else []),
                     put := if unbuffered then [] else Chars(c), accepted := v.accepted + Chars(c),
                     offered := io.offered, open := io.open, timer := timerState, clock := io.clock)
    }

    /** In terms of what may be done to a snapshot. */
    lemma GivenUpIsFailedWrite(v: View, c: IntType, sent: nat)
      requires GivenUp(v, c, sent) && (c != EOF ==> unbuffered || |v.put| == BUFFER_SIZE)
      ensures Writes(v, Chars(c), false, Abs())
    {
      assert |v.wire + v.put[..sent]| == |v.wire| + sent;
      assert v.wire + v.put[..0] == v.wire == v.wire + v.FirstPiece(Chars(c))[..0];
    }

    lemma WroteIsWrite(v: View, c: IntType)
      requires Wrote(v, c) && (c != EOF ==> unbuffered || |v.put| == BUFFER_SIZE) && (unbuffered ==> v.put == [])
      ensures Writes(v, Chars(c), true, Abs())
    {
      assert (v.wire + v.put) + [] == v.wire + v.put;
      assert v.accepted + [] == v.accepted;
    }

    static lemma SentAfterWrite(v: View, v': View, c: IntType)
      requires v'.accepted == v.accepted + Chars(c)
      requires (v'.wire == (v.wire + v.put) + Chars(c) && v'.put == []) ||
               (v'.wire == (v.wire + v.put) + [] && v'.put == Chars(c))
      ensures v.Sent() ==> v'.Sent()
    {
      assert (v.wire + v.put) + [] == v.wire + v.put;
      assert ((v.wire + v.put) + Chars(c)) + [] == (v.wire + v.put) + Chars(c);
    }

    static lemma SentAfterFailure(v: View, v': View, sent: nat)
      requires v'.accepted == v.accepted && v'.put == v.put && sent <= |v.put| && v'.wire == v.wire + v.put[..sent]
      ensures v.Sent() ==> (v'.Sent() <==> sent == 0)
    {
      assert |v'.wire + v'.put| == |v.wire + v.put| + sent;
    }

    method OverflowUnbuffered(c: IntType) returns (r: IntType)
      requires Valid() && unbuffered
      modifies this`io, this`timerState, this`ec, this`bytesTransferred, getBuffer
      modifies this`accepted
      ensures if r == EOF then GivenUp(old(Abs()), c, 0) else Wrote(old(Abs()), c)
      ensures r != EOF ==> r == if c == EOF then NotEof(c) else c
    {
      ghost var v := Abs();
      assert v.put == [] && v.wire + v.put == v.wire == v.wire + Chars(EOF) && v.accepted + [] == v.accepted;
      if c == EOF {
        return NotEof(c);
      }
      FlushStarts([c]);
      if timerState == TimerHasExpired {
        Abort(v, 0, [c]);
        return EOF;
      }
      SendSome([c]);
      if ec != NoError {
        assert v.wire + [c][..0] == v.wire;
        return EOF;
      }
      assert [c][..bytesTransferred] == [c];
      accepted := accepted + [c];
      return c;
    }

    method OverflowBuffered(c: IntType) returns (r: IntType, ghost sent: nat)
      requires Valid() && !unbuffered
      modifies this`io, this`timerState, this`ec, this`bytesTransferred, getBuffer
      modifies this`pbase, this`pptr, this`epptr, this`accepted, putBuffer
      ensures if r == EOF then GivenUp(old(Abs()), c, sent) else Wrote(old(Abs()), c)
      ensures r != EOF ==> r == if c == EOF then NotEof(c) else c
      ensures old(io.open) && timerState != TimerHasExpired ==>
        var total := SentBy(peer, |old(io.offered)|, |old(PutArea())|);
        (r != EOF <==> total == |old(PutArea())|) && (r == EOF ==> sent == total)
    {
      ghost var v := Abs();
      var ok;
      ok, sent := Flush();
      if v.open && timerState != TimerHasExpired {
        FlushSends(v, sent);
      }
      if !ok {
        return EOF, sent;
      }
      Restart(v, c);
      return if c == EOF then NotEof(c) else c, sent;
    }

    /** Starts an empty put area after a flush, with c as its first character unless that is eof. */
    method Restart(ghost v: View, c: IntType)
      requires !unbuffered && Flushing(v, |v.put|, v.put) && io.failures == v.failures
      requires v.put == [] ==> io.offered == v.offered
      modifies this`pbase, this`pptr, this`epptr, this`accepted, putBuffer
      ensures Wrote(v, c) && !unbuffered
    {
      assert v.put[..|v.put|] == v.put && (v.wire + v.put) + [] == v.wire + v.put;
      assert v.accepted + [] == v.accepted;
      pbase, pptr, epptr := 0, 0, putBuffer.Length;
      if c != EOF {
        Append(c);
      }
    }

    method Sync() returns (r: IntType)
      requires Valid()
      modifies this`io, this`timerState, this`ec, this`bytesTransferred, getBuffer
      modifies this`pbase, this`pptr, this`epptr, this`accepted, putBuffer
      ensures Valid() && (r == NotEof(EOF) || r == EOF)
      ensures Writes(old(Abs()), [], r != EOF, Abs())
      ensures !unbuffered && old(io.open) && timerState != TimerHasExpired ==>
        var total := SentBy(peer, |old(io.offered)|, |old(PutArea())|);
        |io.wire| == |old(io.wire)| + total && (r != EOF <==> total == |old(PutArea())|)
    {
      ghost var v, sent := Abs(), 0;
      r, sent := Overflow(EOF);
      if r == EOF {
        GivenUpIsFailedWrite(v, EOF, sent);
      } else {
        WroteIsWrite(v, EOF);
      }
    }

    /** setbuf(s, n): the only request that is granted turns buffering off, while the put area is empty. */
    method Setbuf(isNull: bool, n: nat) returns (granted: bool)
      requires Valid()
      modifies this`unbuffered, this`pbase, this`pptr, this`epptr
      ensures Valid()
      ensures granted <==> old(PutArea()) == [] && isNull && n == 0
      ensures Abs() == old(Abs()).(unbuffered := old(unbuffered) || granted)
    {
      if pptr == pbase && isNull && n == 0 {
        unbuffered := true;
        pbase, pptr, epptr := 0, 0, 0;
        return true;
      }
      return false;
    }

    // The public functions of std::streambuf on the virtual ones.

    method Sputc(c: Byte) returns (r: IntType)
      requires Valid()
      modifies this`io, this`timerState, this`ec, this`bytesTransferred, getBuffer
      modifies this`pbase, this`pptr, this`epptr, this`accepted, putBuffer
      ensures Valid() && (r == c || r == EOF)
      ensures Writes(old(Abs()), [c], r != EOF, Abs())
    {
      if pptr < epptr {
        Append(c);
        return c;
      }
      ghost var v, sent := Abs(), 0;
      r, sent := Overflow(c);
      if r == EOF {
        GivenUpIsFailedWrite(v, c, sent);
      } else {
        WroteIsWrite(v, c);
      }
    }

    method Append(c: Byte)
      requires Valid() && pptr < epptr
      modifies this`pptr, this`accepted, putBuffer
      ensures Valid()
      ensures Abs() == old(Abs()).(put := old(PutArea()) + [c], accepted := old(accepted) + [c])
    {
      ghost var area := PutArea();
      putBuffer[pptr] := c;
      pptr := pptr + 1;
      accepted := accepted + [c];
      assert PutArea() == area + [c];
    }

    method Sgetc() returns (c: IntType)
      requires Valid()
      modifies this`io, this`timerState, this`ec, this`bytesTransferred, getBuffer
      modifies this`eback, this`gptr, this`egptr
      ensures Valid() && Refills(old(Abs()), Abs())
      ensures c == if GetArea() == [] then EOF else GetArea()[0]
    {
      if gptr < egptr {
        c := getBuffer[gptr];
      } else {
        c := Underflow();
      }
    }

    method Step(ghost c: Byte)
      requires Valid() && GetArea() != [] && c == GetArea()[0]
      modifies this`gptr, this`delivered
      ensures Valid()
      ensures Abs() == old(Abs()).(get := old(GetArea())[1..], delivered := old(delivered) + [c])
    {
      delivered := delivered + [c];
      gptr := gptr + 1;
    }

    method Sbumpc() returns (c: IntType)
      requires Valid()
      modifies this`io, this`timerState, this`ec, this`bytesTransferred, getBuffer
      modifies this`eback, this`gptr, this`egptr, this`delivered
      ensures Valid() && Allowed(old(Abs()), Get, Int(c), Abs())
    {
      hide SocketSpec.Refills, SocketSpec.Allowed;
      hide SocketStreambuf.Areas, SocketStreambuf.Timer, SocketStreambuf.PutArea, SocketStreambuf.GetArea;
      ghost var v := Abs();
      c := Sgetc();
      ghost var filled := Abs();
      if c != EOF {
        Step(c);
      }
      Gets(v, filled, c, Abs());
    }
  }

  /** Getting a character is peeking at it and stepping over it. */
  lemma Gets(v: View, filled: View, c: IntType, v': View)
    requires Refills(v, filled) && filled.get == Chars(c) + v'.get && (c == EOF <==> filled.get == [])
    requires v' == filled.(get := v'.get, delivered := filled.delivered + Chars(c))
    ensures Allowed(v, Get, Int(c), v')
  {
    assert filled == v'.(get := Chars(c) + v'.get, delivered := filled.delivered);
    assert filled.delivered == v.delivered;
  }

  /** Flushing again after a flush that has failed. */
  method FlushAgain(s: SocketStreambuf) returns (first: IntType, second: IntType, ghost between: View)
    requires s.Valid()
    modifies s, s.getBuffer, s.putBuffer
    ensures s.Valid()
    ensures Allowed(old(s.Abs()), Flush, Int(first), between) && Allowed(between, Flush, Int(second), s.Abs())
    ensures first == EOF && second != EOF ==>
      var k := |between.wire| - |old(s.io.wire)|;
      && 0 <= k < |old(s.PutArea())|
      && s.io.wire == old(s.io.wire) + old(s.PutArea())[..k] + old(s.PutArea())
      && (s.io.wire == old(s.io.wire) + old(s.PutArea()) <==> k == 0)
  {
    first := s.Sync();
    between := s.Abs();
    second := s.Sync();
    if first == EOF && second != EOF {
      SocketSpec.FlushAgain(old(s.Abs()), between, s.Abs());
      assert between.wire == old(s.io.wire) + old(s.PutArea())[..|between.wire| - |old(s.io.wire)|];
    }
  }

  method TwoPut(now: int) returns (s: SocketStreambuf)
    ensures fresh(s) && fresh(s.getBuffer) && fresh(s.putBuffer) && s.Valid()
    ensures s.peer(0) == Moves(1) && s.peer(1).Fails?
    ensures s.io.wire == [] && s.PutArea() == [1, 2] && s.accepted == [1, 2]
    ensures !s.unbuffered && s.io.open && s.timerState == NoTimer && s.io.offered == []
  {
    hide SocketStreambuf.Areas, SocketStreambuf.PutArea, SocketStreambuf.Timer;
    s := new SocketStreambuf(true, [], now, i => if i == 0 then Moves(1) else Fails(0));
    var first := s.Sputc(1);
    var second := s.Sputc(2);
  }

  /** A short run into the harm: 1 and 2 are put, the peer takes one character and then fails.  The flush
      answers eof, 1 is on the wire and still in the put area. */
  method FlushDamages(now: int) returns (s: SocketStreambuf, r: IntType)
    ensures fresh(s) && s.Valid() && r == EOF
    ensures s.io.wire == [1] && s.PutArea() == [1, 2] && s.accepted == [1, 2] && !s.Abs().Sent()
  {
    hide SocketStreambuf.Areas, SocketStreambuf.PutArea, SocketStreambuf.Timer;
    s := TwoPut(now);
    assert SentBy(s.peer, 0, 2) == 1;
    r := s.Sync();
  }

  // ---------- whole runs ----------

  method Perform(s: SocketStreambuf, op: Op) returns (a: Answer)
    requires s.Valid()
    modifies s, s.getBuffer, s.putBuffer
    ensures s.Valid() && Allowed(old(s.Abs()), op, a, s.Abs())
  {
    match op {
      case Put(c) =>
        var r := s.Sputc(c);
        a := Int(r);
      case Flush =>
        var r := s.Sync();
        a := Int(r);
      case Unbuffer =>
        var granted := s.Setbuf(true, 0);
        a := Pointer(granted);
      case Get =>
        var c := s.Sbumpc();
        a := Int(c);
      case Peek =>
        var c := s.Sgetc();
        a := Int(c);
      case ExpireAt(time) =>
        s.ExpiresAt(time);
        a := Void;
      case ExpireIn(duration) =>
        s.ExpiresFromNow(duration);
        a := Void;
    }
  }

  /** In every run, whatever the timer and the socket do, each operation answers and changes the stream as it
      may.  So the accounts hold: what the reader got, with the get area and what the peer will still send, is
      what the peer was going to send; and what the writer was told it had put is on the wire or in the put area,
      in order and once, if and only if no write failed after part of the put area had gone out.  No operation of
      the run began with an expired timer. */
  method Run(s: SocketStreambuf, ops: seq<Op>) returns (answers: seq<Answer>, ghost log: seq<View>)
    requires s.Valid()
    modifies s, s.getBuffer, s.putBuffer
    ensures s.Valid() && IsRun(log, ops, answers)
    ensures log[0] == old(s.Abs()) && log[|ops|] == s.Abs()
    ensures old(s.io.offered) <= s.io.offered
    ensures forall i | |old(s.io.offered)| <= i < |s.io.offered| :: !s.io.offered[i].timer.TimerHasExpired?
    ensures old(s.GetArea() + s.io.incoming) == AllGot(ops, answers, |ops|) + (s.GetArea() + s.io.incoming)
    ensures old(s.Abs().Sent() && s.Abs().Kept()) ==>
      && s.io.received == old(s.delivered) + AllGot(ops, answers, |ops|) + s.GetArea()
      && (s.io.wire + s.PutArea() == old(s.accepted) + AllPut(ops, answers, |ops|)
          <==> !exists i | 0 <= i < |ops| :: FailedMidway(log, ops, answers, i))
  {
    answers, log := [], [s.Abs()];
    for i := 0 to |ops|
      invariant s.Valid() && |answers| == i && |log| == i + 1
      invariant log[0] == old(s.Abs()) && log[i] == s.Abs()
      invariant forall j | 0 <= j < i :: Allowed(log[j], ops[j], answers[j], log[j + 1])
    {
      var a := Perform(s, ops[i]);
      answers, log := answers + [a], log + [s.Abs()];
    }
    NoneBegunExpired(log, ops, answers, |ops|);
    DeliversWhatIsSent(log, ops, answers, |ops|);
    if log[0].Sent() && log[0].Kept() {
      RunAccounts(log, ops, answers);
    }
  }
}
