/** What a socket stream buffer may do, on snapshots of its state, and the accounts that hold
    of every run that does no more. */
module SocketSpec {
  import opened Buffers
  import opened CharTraits

  const PUTBACK_MAX := 8
  const BUFFER_SIZE := 512

  datatype TimerState = NoTimer | TimerIsPending | TimerHasExpired

  /** An operation on the socket. */
  datatype Operation = Send(data: seq<Byte>) | Receive(area: Buffer)

  /** An operation that was begun, and the state the timer was in then. */
  datatype Offer = Offer(operation: Operation, timer: TimerState)

  /** A snapshot: what the socket has sent and received, the put and get areas, what the writer
      and the reader have seen, the operations begun, how many have failed, the socket and the timer. */
  datatype View = View(wire: seq<Byte>, put: seq<Byte>, get: seq<Byte>,
                       accepted: seq<Byte>, delivered: seq<Byte>, received: seq<Byte>, incoming: seq<Byte>,
                       offered: seq<Offer>, failures: nat, unbuffered: bool, open: bool,
                       timer: TimerState, expiry: int, clock: int) {

    /** Every character accepted is on the wire or in the put area, once and in order. */
    predicate Sent() {
      accepted == wire + put
    }

    /** Every character received has been delivered or is in the get area, once and in order. */
    predicate Kept() {
      received == delivered + get
    }

    /** What the reader has not got yet: the get area and what the peer will still send. */
    function Due(): seq<Byte> {
      get + incoming
    }

    /** What writing c offers to the socket first. */
    function FirstPiece(c: seq<Byte>): seq<Byte> {
      if c != [] && unbuffered then c else put
    }

    /** How many characters are on the wire or in the put area beyond those accepted. */
    function Excess(): int {
      |wire| + |put| - |accepted|
    }

    /** Nothing can be sent or received: no operation begins, or every one that begins fails. */
    predicate Dead() {
      timer.TimerHasExpired? || !open
    }

    /** Writing the characters c (none: flushing) cannot be done without the socket. */
    predicate MustSend(c: seq<Byte>) {
      if c == [] then put != [] else unbuffered || |put| >= BUFFER_SIZE
    }

    /** The wire and the put area after c has been written. */
    function AfterWrite(c: seq<Byte>): (seq<Byte>, seq<Byte>) {
      if c == [] then (wire + put, [])
      else if unbuffered then (wire + put + c, [])
      else if |put| < BUFFER_SIZE then (wire, put + c)
      else (wire + put, c)
    }
  }

  /** Time passes while an operation is under way; only the timer closes the socket. */
  predicate Elapses(v: View, v': View) {
    && v.clock <= v'.clock && v'.expiry == v.expiry
    && (v.timer.NoTimer? <==> v'.timer.NoTimer?)
    && (v.timer.TimerHasExpired? ==> v'.timer.TimerHasExpired?)
    && (v'.timer.TimerHasExpired? ==> v'.expiry <= v'.clock)
    && v'.open == (v.open && !v'.timer.TimerHasExpired?)
  }

  /** Operations are begun, none of them once the timer has expired. */
  predicate Begins(v: View, v': View) {
    && v.offered <= v'.offered
    && (forall i | |v.offered| <= i < |v'.offered| :: !v'.offered[i].timer.TimerHasExpired?)
    && (v.timer.TimerHasExpired? ==> v'.offered == v.offered)
  }

  /** The only reasons to answer eof: an operation has just failed, or the timer has expired. */
  predicate GivesUp(v: View, v': View) {
    v'.failures == v.failures + 1 || (v'.failures == v.failures && v'.timer.TimerHasExpired?)
  }

  /** Writing c succeeds, or gives up after a proper prefix of what is to be sent has gone out. */
  predicate Writes(v: View, c: seq<Byte>, ok: bool, v': View) {
    && Elapses(v, v') && Begins(v, v')
    && (forall i | |v.offered| <= i < |v'.offered| :: v'.offered[i].operation.Send?)
    && (!v.MustSend(c) ==> v'.offered == v.offered)
    && (v.MustSend(c) && !v.timer.TimerHasExpired? ==>
          |v'.offered| > |v.offered| && v'.offered[|v.offered|] == Offer(Send(v.FirstPiece(c)), v.timer))
    && v'.get == v.get && v'.delivered == v.delivered && v'.received == v.received && v'.incoming == v.incoming
    && v'.unbuffered == v.unbuffered
    && (if ok then
          && (v'.wire, v'.put) == v.AfterWrite(c)
          && v'.accepted == v.accepted + c && v'.failures == v.failures
        else
          && v.MustSend(c) && GivesUp(v, v')
          && v'.put == v.put && v'.accepted == v.accepted
          && 0 <= |v'.wire| - |v.wire| <= |v.FirstPiece(c)|
          && (|v'.wire| == |v.wire| || |v'.wire| - |v.wire| < |v.FirstPiece(c)|)
          && v'.wire == v.wire + v.FirstPiece(c)[..|v'.wire| - |v.wire|])
    && (v.MustSend(c) && v.Dead() ==> !ok && v'.wire == v.wire)
  }

  /** An exhausted get area is refilled with what one receive brings, or the reader gives up. */
  predicate Refills(v: View, v': View) {
    if v.get != [] then v' == v
    else
      && Elapses(v, v')
      && v'.offered == v.offered +
           (if v.timer.TimerHasExpired? then [] else [Offer(Receive(Buffer(8, 504)), v.timer)])
      && v'.wire == v.wire && v'.put == v.put && v'.accepted == v.accepted && v'.delivered == v.delivered
      && v'.unbuffered == v.unbuffered
      && v'.received == v.received + v'.get && v.incoming == v'.get + v'.incoming && |v'.get| <= 504
      && (if v'.get == [] then GivesUp(v, v') else v'.failures == v.failures)
      && (v.Dead() ==> v'.get == [])
  }

  /** A new expiry takes effect at once, or when the handler of the outstanding wait runs. */
  predicate Expires(v: View, v': View) {
    && v' == v.(timer := v'.timer, expiry := v'.expiry, clock := v'.clock, open := v'.open)
    && v.clock <= v'.clock && v'.open == (v.open && !v'.timer.TimerHasExpired?)
    && v'.timer == if v.timer.TimerIsPending? || v'.clock < v'.expiry then TimerIsPending else TimerHasExpired
  }

  // ---------- operations ----------

  datatype Op =
    | Put(c: Byte)              // sputc
    | Flush                     // pubsync
    | Unbuffer                  // pubsetbuf(0, 0)
    | Get                       // sbumpc
    | Peek                      // sgetc
    | ExpireAt(time: int)
    | ExpireIn(duration: int)

  datatype Answer = Int(c: IntType) | Pointer(granted: bool) | Void

  /** What an operation may answer and do. */
  predicate Allowed(v: View, op: Op, a: Answer, v': View) {
    match op
    case Put(c) => a.Int? && (a.c == c || a.c == EOF) && Writes(v, [c], a.c != EOF, v')
    case Flush => a.Int? && (a.c == NotEof(EOF) || a.c == EOF) && Writes(v, [], a.c != EOF, v')
    case Unbuffer => a == Pointer(v.put == []) && v' == v.(unbuffered := v.unbuffered || v.put == [])
    case Get =>
      && a.Int? && v'.delivered == v.delivered + Chars(a.c)
      && var filled := v'.(get := Chars(a.c) + v'.get, delivered := v.delivered);
         Refills(v, filled) && (a.c == EOF <==> filled.get == [])
    case Peek => a.Int? && Refills(v, v') && a.c == if v'.get == [] then EOF else v'.get[0]
    case ExpireAt(time) => a.Void? && Expires(v, v') && v'.expiry == time
    case ExpireIn(duration) => a.Void? && Expires(v, v') && v.clock + duration <= v'.expiry <= v'.clock + duration
  }

  /** A peek that finds a character answers what the next get answers. */
  lemma PeekTellsGet(v: View, c: IntType, v': View, d: IntType, v'': View)
    requires Allowed(v, Peek, Int(c), v') && c != EOF && Allowed(v', Get, Int(d), v'')
    ensures d == c && v''.Due() == v'.Due()[1..]
  {
    assert v'.get[0] == (Chars(d) + v''.get)[0];
  }

  // ---------- runs ----------

  /** The snapshots before, between and after the operations. */
  predicate IsRun(log: seq<View>, ops: seq<Op>, answers: seq<Answer>) {
    && |answers| == |ops| && |log| == |ops| + 1
    && forall i | 0 <= i < |ops| :: Allowed(log[i], ops[i], answers[i], log[i + 1])
  }

  /** The writer was told that its character or its flush failed. */
  predicate WriteFailed(op: Op, a: Answer) {
    (op.Put? || op.Flush?) && a == Int(EOF)
  }

  function PutBy(op: Op, a: Answer): seq<Byte> {
    if op.Put? && !WriteFailed(op, a) then [op.c] else []
  }

  function GotBy(op: Op, a: Answer): seq<Byte> {
    if op.Get? && a.Int? then Chars(a.c) else []
  }

  /** The characters that the first n operations were told to have put. */
  function AllPut(ops: seq<Op>, answers: seq<Answer>, n: nat): seq<Byte>
    requires n <= |ops| == |answers|
  {
    if n == 0 then [] else AllPut(ops, answers, n - 1) + PutBy(ops[n - 1], answers[n - 1])
  }

  /** The characters that the first n operations got. */
  function AllGot(ops: seq<Op>, answers: seq<Answer>, n: nat): seq<Byte>
    requires n <= |ops| == |answers|
  {
    if n == 0 then [] else AllGot(ops, answers, n - 1) + GotBy(ops[n - 1], answers[n - 1])
  }

  /** A write that failed although part of the put area had gone out. */
  predicate FailedMidway(log: seq<View>, ops: seq<Op>, answers: seq<Answer>, i: nat)
    requires |log| == |ops| + 1 && |answers| == |ops| && i < |ops|
  {
    WriteFailed(ops[i], answers[i]) && |log[i + 1].wire| > |log[i].wire|
  }

  /** What one operation does to the accounts. */
  lemma OneAccount(v: View, op: Op, a: Answer, v': View)
    requires Allowed(v, op, a, v')
    ensures v'.accepted == v.accepted + PutBy(op, a) && v'.delivered == v.delivered + GotBy(op, a)
    ensures v.Kept() ==> v'.Kept()
    ensures v.Due() == GotBy(op, a) + v'.Due()
    ensures |v.wire| <= |v'.wire| && v.failures <= v'.failures
    ensures WriteFailed(op, a) ==> v'.Excess() == v.Excess() + |v'.wire| - |v.wire|
    ensures !WriteFailed(op, a) ==> v'.Excess() == v.Excess() && (v.Sent() ==> v'.Sent())
    ensures WriteFailed(op, a) && v'.wire == v.wire ==> (v.Sent() ==> v'.Sent())
  {
    if op.Put? && !WriteFailed(op, a) {
      assert v.wire + (v.put + [op.c]) == (v.wire + v.put) + [op.c] == (v.wire + v.put + [op.c]) + [];
    } else if op.Flush? && !WriteFailed(op, a) {
      assert (v.wire + v.put) + [] == v.wire + v.put;
    } else if op.Get? {
      assert Chars(a.c) + (v'.get + v'.incoming) == (Chars(a.c) + v'.get) + v'.incoming;
    }
  }

  /** One of the first n operations was a write that failed midway. */
  predicate Lost(log: seq<View>, ops: seq<Op>, answers: seq<Answer>, n: nat)
    requires |log| == |ops| + 1 && |answers| == |ops| && n <= |ops|
  {
    n != 0 && (Lost(log, ops, answers, n - 1) || FailedMidway(log, ops, answers, n - 1))
  }

  lemma {:induction false} LostMeans(log: seq<View>, ops: seq<Op>, answers: seq<Answer>, n: nat)
    requires |log| == |ops| + 1 && |answers| == |ops| && n <= |ops|
    ensures Lost(log, ops, answers, n) <==> exists i | 0 <= i < n :: FailedMidway(log, ops, answers, i)
  {
    if n != 0 {
      LostMeans(log, ops, answers, n - 1);
    }
  }

  lemma OneMore(v: View, op: Op, a: Answer, v': View)
    requires Allowed(v, op, a, v')
    ensures WriteFailed(op, a) && |v'.wire| > |v.wire| ==> v'.Excess() > v.Excess()
    ensures v'.Excess() >= v.Excess() && (v.Sent() ==> v.Excess() == 0)
    ensures v.Sent() && !(WriteFailed(op, a) && |v'.wire| > |v.wire|) ==> v'.Sent()
  {
    OneAccount(v, op, a, v');
    if WriteFailed(op, a) && |v'.wire| <= |v.wire| {
      SameWire(v, op, a, v');
    }
  }

  /** After n operations: who has seen what, and whether the wire is ahead. */
  lemma {:induction false} Accounts(log: seq<View>, ops: seq<Op>, answers: seq<Answer>, n: nat)
    requires IsRun(log, ops, answers) && n <= |ops| && log[0].Sent() && log[0].Kept()
    ensures log[n].accepted == log[0].accepted + AllPut(ops, answers, n)
    ensures log[n].delivered == log[0].delivered + AllGot(ops, answers, n)
    ensures log[n].Kept()
    ensures if Lost(log, ops, answers, n) then log[n].Excess() > 0 else log[n].Sent()
  {
    hide Allowed;
    if n != 0 {
      Accounts(log, ops, answers, n - 1);
      var v, op, a, v' := log[n - 1], ops[n - 1], answers[n - 1], log[n];
      assert Allowed(v, op, a, v');
      OneAccount(v, op, a, v');
      OneMore(v, op, a, v');
    }
  }

  lemma SentHasNoExcess(v: View)
    ensures v.Sent() ==> v.Excess() == 0
  {
  }

  lemma SameWire(v: View, op: Op, a: Answer, v': View)
    requires Allowed(v, op, a, v') && WriteFailed(op, a)
    ensures |v'.wire| <= |v.wire| || |v.FirstPiece(Written(op))| <= 1 ==> v'.wire == v.wire
  {
    assert v.FirstPiece(Written(op))[..0] == [];
  }

  /** The accounts of a whole run.  Nothing is received twice or lost; and what was put is on the wire or in the
      put area, in order and once, if and only if no write has failed midway. */
  lemma RunAccounts(log: seq<View>, ops: seq<Op>, answers: seq<Answer>)
    requires IsRun(log, ops, answers) && log[0].Sent() && log[0].Kept()
    ensures var first, last, n := log[0], log[|ops|], |ops|;
      && last.accepted == first.accepted + AllPut(ops, answers, n)
      && last.received == first.delivered + AllGot(ops, answers, n) + last.get
      && (last.wire + last.put == first.accepted + AllPut(ops, answers, n)
          <==> !exists i | 0 <= i < n :: FailedMidway(log, ops, answers, i))
  {
    Accounts(log, ops, answers, |ops|);
    LostMeans(log, ops, answers, |ops|);
    SentHasNoExcess(log[|ops|]);
  }

  /** What the peer sends is got once and in order: what the reader gets, what is left in the get area and what the
      peer will still send are what was in the get area and what the peer was going to send. */
  lemma {:induction false} DeliversWhatIsSent(log: seq<View>, ops: seq<Op>, answers: seq<Answer>, n: nat)
    requires IsRun(log, ops, answers) && n <= |ops|
    ensures log[0].get + log[0].incoming == AllGot(ops, answers, n) + (log[n].get + log[n].incoming)
  {
    hide Allowed;
    if n != 0 {
      DeliversWhatIsSent(log, ops, answers, n - 1);
      assert Allowed(log[n - 1], ops[n - 1], answers[n - 1], log[n]);
      OneAccount(log[n - 1], ops[n - 1], answers[n - 1], log[n]);
    }
  }

  /** In particular when every write succeeded. */
  lemma RunWithoutFailedWrite(log: seq<View>, ops: seq<Op>, answers: seq<Answer>)
    requires IsRun(log, ops, answers) && log[0].Sent() && log[0].Kept()
    requires forall i | 0 <= i < |ops| :: !WriteFailed(ops[i], answers[i])
    ensures log[|ops|].wire + log[|ops|].put == log[0].accepted + AllPut(ops, answers, |ops|)
  {
    RunAccounts(log, ops, answers);
  }

  lemma {:induction false} FailuresGrow(log: seq<View>, ops: seq<Op>, answers: seq<Answer>, i: nat, j: nat)
    requires IsRun(log, ops, answers) && i <= j <= |ops|
    ensures log[i].failures <= log[j].failures
    decreases j
  {
    if i < j {
      FailuresGrow(log, ops, answers, i, j - 1);
      OneAccount(log[j - 1], ops[j - 1], answers[j - 1], log[j]);
    }
  }

  /** And every write does succeed unless an operation fails or the timer expires. */
  lemma WritesFailForAReason(log: seq<View>, ops: seq<Op>, answers: seq<Answer>)
    requires IsRun(log, ops, answers)
    requires log[|ops|].failures == log[0].failures
    requires forall i | 0 <= i <= |ops| :: !log[i].timer.TimerHasExpired?
    ensures forall i | 0 <= i < |ops| :: !WriteFailed(ops[i], answers[i])
    ensures forall i | 0 <= i < |ops| && (ops[i].Get? || ops[i].Peek?) :: answers[i] != Int(EOF)
  {
    forall i | 0 <= i < |ops|
      ensures !WriteFailed(ops[i], answers[i])
      ensures ops[i].Get? || ops[i].Peek? ==> answers[i] != Int(EOF)
    {
      FailuresGrow(log, ops, answers, 0, i);
      FailuresGrow(log, ops, answers, i, i + 1);
      FailuresGrow(log, ops, answers, i + 1, |ops|);
      assert Allowed(log[i], ops[i], answers[i], log[i + 1]);
    }
  }

  /** Once a flush has failed, the next one that succeeds sends the whole put area again: the wire carries what
      was written, once, if and only if the failed flush had sent nothing. */
  lemma FlushAgain(v: View, failed: View, v': View)
    requires Allowed(v, Flush, Int(EOF), failed) && Allowed(failed, Flush, Int(NotEof(EOF)), v')
    ensures 0 <= |failed.wire| - |v.wire| < |v.put|
    ensures v'.wire == v.wire + v.put[..|failed.wire| - |v.wire|] + v.put && v'.put == []
    ensures v'.wire == v.wire + v.put <==> failed.wire == v.wire
  {
    var k := |failed.wire| - |v.wire|;
    assert |v'.wire| == |v.wire| + k + |v.put|;
    if k == 0 {
      assert v.wire + v.put[..0] == v.wire;
    }
  }

  // ---------- when a failed write is harmless ----------

  /** The characters that an operation writes. */
  function Written(op: Op): seq<Byte> {
    if op.Put? then [op.c] else []
  }

  /** A put or flush that fails leaves the account right, whatever the socket does, if and only if it needs no
      socket (then it cannot fail), has at most one character to send, the timer has expired or the socket is
      closed. */
  lemma FailureHarmless(v: View, op: Op)
    requires v.Sent() && (op.Put? || op.Flush?)
    ensures (forall v' | Allowed(v, op, Int(EOF), v') :: v'.Sent()) <==>
      (!v.MustSend(Written(op)) || |v.FirstPiece(Written(op))| <= 1 || v.Dead())
  {
    if !v.MustSend(Written(op)) || |v.FirstPiece(Written(op))| <= 1 || v.Dead() {
      forall v' | Allowed(v, op, Int(EOF), v')
        ensures v'.Sent()
      {
        SameWire(v, op, Int(EOF), v');
      }
    } else {
      var v' := OneCharacterOut(v);
      assert v'.offered[|v.offered|] == Offer(Send(v.put), v.timer);
      assert Allowed(v, op, Int(EOF), v');
      assert |v'.wire + v'.put| == |v.wire + v.put| + 1;
    }
  }

  /** The socket takes one character of the put area, then an operation fails. */
  function OneCharacterOut(v: View): View
    requires |v.put| > 1
  {
    v.(wire := v.wire + v.put[..1], failures := v.failures + 1, offered := v.offered + [Offer(Send(v.put), v.timer)])
  }

  /** What was put is 1, 2, and a flush answers eof after 1 has gone out: the next one will send it again. */
  lemma FailureDamages(v: View) returns (v': View)
    requires v.wire == [] && v.put == [1, 2] && v.accepted == [1, 2] && v.open && v.timer.NoTimer?
    ensures Allowed(v, Flush, Int(EOF), v') && v'.wire == [1] && v'.put == [1, 2] && !v'.Sent()
  {
    v' := OneCharacterOut(v);
    assert |v'.wire + v'.put| == 3;
  }

  lemma StaysUnbuffered(v: View, op: Op, a: Answer, v': View)
    requires Allowed(v, op, a, v') && v.unbuffered && v.put == [] && v.Sent()
    ensures v'.unbuffered && v'.put == [] && v'.Sent() && v'.accepted == v.accepted + PutBy(op, a)
  {
    OneAccount(v, op, a, v');
    OneMore(v, op, a, v');
  }

  /** A stream that is unbuffered keeps its account in every run, failures included. */
  lemma {:induction false} UnbufferedAccounts(log: seq<View>, ops: seq<Op>, answers: seq<Answer>, n: nat)
    requires IsRun(log, ops, answers) && n <= |ops|
    requires log[0].Sent() && log[0].unbuffered && log[0].put == []
    ensures log[n].Sent() && log[n].unbuffered && log[n].put == []
    ensures log[n].wire == log[0].accepted + AllPut(ops, answers, n)
  {
    hide Allowed;
    if n != 0 {
      UnbufferedAccounts(log, ops, answers, n - 1);
      var v, op, a, v' := log[n - 1], ops[n - 1], answers[n - 1], log[n];
      assert Allowed(v, op, a, v');
      StaysUnbuffered(v, op, a, v');
    }
    assert log[n].wire + log[n].put == log[n].wire;
  }

  // ---------- the put area ----------

  /** The put area holds 512 characters: so many puts into an empty one touch no socket and never fail. */
  lemma {:induction false} PutsStay(log: seq<View>, ops: seq<Op>, answers: seq<Answer>, n: nat)
    requires IsRun(log, ops, answers) && n <= |ops| && n <= 512
    requires log[0].put == [] && !log[0].unbuffered && forall i | 0 <= i < n :: ops[i].Put?
    ensures forall i | 0 <= i < n :: answers[i] == Int(ops[i].c)
    ensures log[n].put == AllPut(ops, answers, n) && |log[n].put| == n
    ensures !log[n].unbuffered && log[n].wire == log[0].wire && log[n].offered == log[0].offered
  {
    if n != 0 {
      PutsStay(log, ops, answers, n - 1);
      assert Allowed(log[n - 1], ops[n - 1], answers[n - 1], log[n]);
    }
  }

  /** And one more offers those 512 to the socket, or fails because the timer has expired. */
  lemma NextPutSends(log: seq<View>, ops: seq<Op>, answers: seq<Answer>)
    requires IsRun(log, ops, answers) && |ops| == 513
    requires log[0].put == [] && !log[0].unbuffered && forall i | 0 <= i < 513 :: ops[i].Put?
    ensures if log[512].timer.TimerHasExpired? then answers[512] == Int(EOF) && log[513].offered == log[0].offered
      else |log[513].offered| > |log[0].offered| &&
           log[513].offered[|log[0].offered|] == Offer(Send(AllPut(ops, answers, 512)), log[512].timer)
  {
    PutsStay(log, ops, answers, 512);
    assert Allowed(log[512], ops[512], answers[512], log[513]);
  }

  // ---------- the timer ----------

  /** An expiry that is not in the future closes the socket at once, unless a wait is outstanding. */
  lemma PastExpiryCloses(v: View, op: Op, a: Answer, v': View)
    requires Allowed(v, op, a, v') && !v.timer.TimerIsPending?
    requires (op.ExpireAt? && op.time <= v.clock) || (op.ExpireIn? && op.duration <= 0)
    ensures v'.timer.TimerHasExpired? && !v'.open
  {
  }

  /** After the socket is closed nothing is sent or received any more. */
  lemma {:induction false} ClosedForGood(log: seq<View>, ops: seq<Op>, answers: seq<Answer>, i: nat, j: nat)
    requires IsRun(log, ops, answers) && i <= j <= |ops| && !log[i].open
    ensures !log[j].open && log[j].wire == log[i].wire && log[j].received == log[i].received
    ensures log[j].incoming == log[i].incoming
    decreases j
  {
    if i < j {
      ClosedForGood(log, ops, answers, i, j - 1);
      ClosedOnce(log[j - 1], ops[j - 1], answers[j - 1], log[j]);
    }
  }

  lemma ClosedOnce(v: View, op: Op, a: Answer, v': View)
    requires Allowed(v, op, a, v') && !v.open
    ensures !v'.open && v'.wire == v.wire && v'.received == v.received && v'.incoming == v.incoming
  {
    if op.Put? || op.Flush? {
      assert v.put == [] ==> v.wire + v.put == v.wire;
    } else if op.Get? {
      assert [] + v'.incoming == v'.incoming;
    }
  }

  /** No operation of a run is begun once the timer has expired. */
  lemma {:induction false} NoneBegunExpired(log: seq<View>, ops: seq<Op>, answers: seq<Answer>, n: nat)
    requires IsRun(log, ops, answers) && n <= |ops|
    ensures log[0].offered <= log[n].offered
    ensures forall i | |log[0].offered| <= i < |log[n].offered| :: !log[n].offered[i].timer.TimerHasExpired?
  {
    if n != 0 {
      NoneBegunExpired(log, ops, answers, n - 1);
      assert Allowed(log[n - 1], ops[n - 1], answers[n - 1], log[n]);
    }
  }
}
