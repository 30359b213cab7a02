/** Whole runs of a streambuf: exactly as a queue that knows where it lies in its array, and
    as a plain bounded queue. */
module StreambufRuns {
  import opened Wrappers
  import opened Buffers
  import opened CharTraits
  import opened Streambuf

  datatype Op =
    | Append(room: nat, data: seq<Byte>)  // prepare(room), fill what fits, commit what was filled
    | Consume(n: nat)
    | Put(c: Byte)                        // sputc
    | Get                                 // sbumpc
    | Peek                                // sgetc

  datatype Answer = Done | Char(c: IntType) | Full

  /** What an append moves into the queue when it is not refused. */
  function Filled(room: nat, data: seq<Byte>): seq<Byte> {
    data[..Min(room, |data|)]
  }

  // ---------- the plain queue ----------

  /** One operation on a queue of at most `max` characters. */
  function Next(q: seq<Byte>, max: nat, op: Op): (seq<Byte>, Answer) {
    match op
    case Append(room, data) => if |q| + room <= max then (q + Filled(room, data), Done) else (q, Full)
    case Consume(n) => (q[Min(n, |q|)..], Done)
    case Put(c) => if |q| < max then (q + [c], Char(c)) else (q, Full)
    case Get => if q == [] then (q, Char(EOF)) else (q[1..], Char(q[0]))
    case Peek => (q, Char(if q == [] then EOF else q[0]))
  }

  /** The queue that a run leaves, and its answers. */
  function Queue(q: seq<Byte>, max: nat, ops: seq<Op>): (seq<Byte>, seq<Answer>)
    decreases |ops|
  {
    if ops == [] then (q, [])
    else
      var (q', a) := Next(q, max, ops[0]);
      var (q'', rest) := Queue(q', max, ops[1..]);
      (q'', [a] + rest)
  }

  // ---------- the queue in its array ----------

  /** The queue, the offset of its front and the end of the put area. */
  datatype Placed = Placed(q: seq<Byte>, front: nat, end: nat) {
    predicate Valid(max: nat) {
      front + |q| <= end <= max
    }

    /** Room is made by moving the queue to the front and growing the array if need be. */
    function MakeRoom(n: nat): (p: Placed)
      ensures p.q == q
    {
      if front + |q| + n <= end then this else Placed(q, 0, Max(end, |q| + n))
    }

    /** One operation; a refused append may damage the queue. */
    function Next(max: nat, op: Op): (Placed, Answer) {
      match op
      case Append(room, data) =>
        if |q| + room <= max then (MakeRoom(room).(q := q + Filled(room, data)), Done)
        else (this.(q := Refused(q, front)), Full)
      case Consume(n) => (Placed(q[Min(n, |q|)..], front + Min(n, |q|), end), Done)
      case Put(c) =>
        if |q| >= max then (this, Full)
        else
          var placed := if front + |q| < end then this else MakeRoom(Min(128, max - |q|));
          (placed.(q := q + [c]), Char(c))
      case Get => if q == [] then (this, Char(EOF)) else (Placed(q[1..], front + 1, end), Char(q[0]))
      case Peek => (this, Char(if q == [] then EOF else q[0]))
    }

    function Run(max: nat, ops: seq<Op>): (Placed, seq<Answer>)
      decreases |ops|
    {
      if ops == [] then (this, [])
      else
        var (next, a) := Next(max, ops[0]);
        var (last, rest) := next.Run(max, ops[1..]);
        (last, [a] + rest)
    }

    /** An append is refused while the queue is longer than the space in front of it. */
    predicate Damages(max: nat, op: Op) {
      op.Append? && |q| + op.room > max && 0 < front < |q|
    }

    /** No operation of the run does that. */
    predicate Harmless(max: nat, ops: seq<Op>)
      decreases |ops|
    {
      ops != [] ==> !Damages(max, ops[0]) && Next(max, ops[0]).0.Harmless(max, ops[1..])
    }
  }

  lemma NextStaysValid(p: Placed, max: nat, op: Op)
    requires p.Valid(max)
    ensures p.Next(max, op).0.Valid(max)
    ensures p.Next(max, op).1 == Next(p.q, max, op).1
    ensures !p.Damages(max, op) ==> p.Next(max, op).0.q == Next(p.q, max, op).0
  {
  }

  /** An operation is refused and leaves another queue than q, placed like p. */
  predicate Spoils(p: Placed, max: nat, op: Op, q: seq<Byte>) {
    var (p', a) := p.(q := q).Next(max, op);
    a == Full && p'.q != q
  }

  /** Damage is what happens to some queue of this length in this place. */
  lemma DamagesWhenItCan(p: Placed, max: nat, op: Op)
    ensures p.Damages(max, op) <==> exists q :: |q| == |p.q| && Spoils(p, max, op, q)
  {
    RefusalHarmless(|p.q|, p.front);
    if p.Damages(max, op) {
      var q :| |q| == |p.q| && Refused(q, p.front) != q;
      assert Spoils(p, max, op, q);
    }
  }

  /** As long as no append is refused in a bad place, the place of the queue cannot be noticed: the answers and
      the contents are those of the plain queue. */
  lemma {:induction false} LikeThePlainQueue(p: Placed, max: nat, ops: seq<Op>)
    requires p.Valid(max) && p.Harmless(max, ops)
    ensures p.Run(max, ops).1 == Queue(p.q, max, ops).1
    ensures p.Run(max, ops).0.q == Queue(p.q, max, ops).0
    decreases |ops|
  {
    if ops != [] {
      NextStaysValid(p, max, ops[0]);
      LikeThePlainQueue(p.Next(max, ops[0]).0, max, ops[1..]);
    }
  }

  /** A run whose answers on the plain queue refuse no append is such a run. */
  lemma {:induction false} UnrefusedIsHarmless(p: Placed, max: nat, ops: seq<Op>)
    requires p.Valid(max)
    requires forall i | 0 <= i < |ops| && ops[i].Append? ::
      i < |Queue(p.q, max, ops).1| && Queue(p.q, max, ops).1[i] == Done
    ensures p.Harmless(max, ops)
    decreases |ops|
  {
    if ops != [] {
      var next, rest := p.Next(max, ops[0]).0, Queue(Next(p.q, max, ops[0]).0, max, ops[1..]).1;
      var answers := Queue(p.q, max, ops).1;
      assert answers == [Next(p.q, max, ops[0]).1] + rest;
      assert ops[0].Append? ==> answers[0] == Done;
      NextStaysValid(p, max, ops[0]);
      forall i | 0 <= i < |ops[1..]| && ops[1..][i].Append?
        ensures i < |rest| && rest[i] == Done
      {
        assert ops[i + 1] == ops[1..][i] && answers[i + 1] == rest[i];
      }
      UnrefusedIsHarmless(next, max, ops[1..]);
    }
  }

  // ---------- the streambuf ----------

  function Place(sb: Streambuf): Placed
    requires sb.Valid()
    reads sb, sb.buffer
  {
    Placed(sb.Input(), sb.gptr, sb.epptr)
  }

  method FillAndCommit(sb: Streambuf, area: Buffer, data: seq<Byte>)
    requires sb.Valid() && area.data == sb.pptr && |data| <= area.size <= |sb.Output()|
    modifies sb, sb.buffer
    ensures sb.Valid() && sb.buffer == old(sb.buffer)
    ensures Place(sb) == old(Place(sb)).(q := old(Place(sb)).q + data)
    ensures old(sb.Conserved()) ==> sb.Conserved()
  {
    Fill(sb, area, data);
    assert sb.Output()[..|data|] == data;
    sb.Commit(|data|);
  }

  method PrepareAt(sb: Streambuf, room: nat) returns (area: Result<Buffer, Error>)
    requires sb.Valid()
    modifies sb, sb.buffer
    ensures sb.Valid() && (sb.buffer == old(sb.buffer) || fresh(sb.buffer))
    ensures area.Err? <==> |old(Place(sb)).q| + room > sb.maxSize
    ensures area.Ok? ==> Place(sb) == old(Place(sb)).MakeRoom(room)
    ensures area.Ok? ==> area.value == Buffer(sb.pptr, room) && room <= |sb.Output()|
    ensures area.Err? ==> Place(sb) == old(Place(sb)).(q := Refused(old(Place(sb)).q, old(Place(sb)).front))
    ensures old(sb.Conserved()) && Place(sb).q == old(Place(sb)).q ==> sb.Conserved()
  {
    hide Streambuf.Valid, Streambuf.Input, Streambuf.Output;
    area := sb.Prepare(room);
  }

  method PerformAppend(sb: Streambuf, room: nat, data: seq<Byte>) returns (a: Answer)
    requires sb.Valid()
    modifies sb, sb.buffer
    ensures sb.Valid() && (sb.buffer == old(sb.buffer) || fresh(sb.buffer))
    ensures (Place(sb), a) == old(Place(sb)).Next(sb.maxSize, Append(room, data))
    ensures !old(Place(sb)).Damages(sb.maxSize, Append(room, data)) && old(sb.Conserved()) ==> sb.Conserved()
  {
    hide Streambuf.Valid, Streambuf.Input, Streambuf.Output, Streambuf.Conserved, Placed.MakeRoom, Place;
    ghost var p := Place(sb);
    var area := PrepareAt(sb, room);
    if area.Err? {
      return Full;
    }
    FillAndCommit(sb, area.value, Filled(room, data));
    a := Done;
  }

  method PerformPut(sb: Streambuf, c: Byte) returns (a: Answer)
    requires sb.Valid()
    modifies sb, sb.buffer
    ensures sb.Valid() && (sb.buffer == old(sb.buffer) || fresh(sb.buffer))
    ensures (Place(sb), a) == old(Place(sb)).Next(sb.maxSize, Put(c))
    ensures old(sb.Conserved()) ==> sb.Conserved()
  {
    var r := sb.Sputc(c);
    a := if r.Ok? then Char(r.value) else Full;
  }

  method PerformConsume(sb: Streambuf, n: nat) returns (a: Answer)
    requires sb.Valid()
    modifies sb
    ensures sb.Valid() && sb.buffer == old(sb.buffer)
    ensures (Place(sb), a) == old(Place(sb)).Next(sb.maxSize, Consume(n))
    ensures old(sb.Conserved()) ==> sb.Conserved()
  {
    sb.Consume(n);
    a := Done;
  }

  method PerformGet(sb: Streambuf) returns (a: Answer)
    requires sb.Valid()
    modifies sb
    ensures sb.Valid() && sb.buffer == old(sb.buffer)
    ensures (Place(sb), a) == old(Place(sb)).Next(sb.maxSize, Get)
    ensures old(sb.Conserved()) ==> sb.Conserved()
  {
    hide Streambuf.Valid, Streambuf.Input, Streambuf.Output, Streambuf.Conserved;
    var c := sb.Sbumpc();
    a := Char(c);
  }

  method PerformPeek(sb: Streambuf) returns (a: Answer)
    requires sb.Valid()
    modifies sb
    ensures sb.Valid() && sb.buffer == old(sb.buffer)
    ensures (Place(sb), a) == old(Place(sb)).Next(sb.maxSize, Peek)
    ensures old(sb.Conserved()) ==> sb.Conserved()
  {
    var c := sb.Sgetc();
    a := Char(c);
  }

  method Perform(sb: Streambuf, op: Op) returns (a: Answer)
    requires sb.Valid()
    modifies sb, sb.buffer
    ensures sb.Valid() && (sb.buffer == old(sb.buffer) || fresh(sb.buffer))
    ensures (Place(sb), a) == old(Place(sb)).Next(sb.maxSize, op)
    ensures !old(Place(sb)).Damages(sb.maxSize, op) && old(sb.Conserved()) ==> sb.Conserved()
  {
    hide Streambuf.Valid, Placed.Next, Place;
    match op {
      case Append(room, data) => a := PerformAppend(sb, room, data);
      case Put(c) => a := PerformPut(sb, c);
      case Consume(n) => a := PerformConsume(sb, n);
      case Get => a := PerformGet(sb);
      case Peek => a := PerformPeek(sb);
    }
  }

  /** A streambuf answers every run as the queue in its array, and leaves it so: across all shifts,
      reallocations and refusals. */
  method Run(sb: Streambuf, ops: seq<Op>) returns (answers: seq<Answer>)
    requires sb.Valid()
    modifies sb, sb.buffer
    ensures sb.Valid()
    ensures (Place(sb), answers) == old(Place(sb)).Run(sb.maxSize, ops)
    ensures old(Place(sb)).Harmless(sb.maxSize, ops) ==>
      (sb.Input(), answers) == Queue(old(sb.Input()), sb.maxSize, ops)
    ensures |answers| == |ops|
    ensures old(Place(sb)).Harmless(sb.maxSize, ops) ==>
      old(sb.Input()) + AllGiven(ops, answers, |ops|) ==
      AllReceived(old(sb.Input()), ops, answers, |ops|) + sb.Input()
    ensures old(Place(sb)).Harmless(sb.maxSize, ops) && old(sb.Conserved()) ==> sb.Conserved()
    decreases |ops|
  {
    ghost var p := Place(sb);
    assert p.Valid(sb.maxSize);
    if p.Harmless(sb.maxSize, ops) {
      LikeThePlainQueue(p, sb.maxSize, ops);
      QueueConserves(p.q, sb.maxSize, ops, |ops|);
      assert ops[..|ops|] == ops;
    }
    if ops == [] {
      return [];
    }
    var a := Perform(sb, ops[0]);
    var rest := Run(sb, ops[1..]);
    answers := [a] + rest;
  }

  // ---------- what a run gives and receives ----------

  /** The characters that an operation with this answer gives to the queue. */
  function Given(op: Op, a: Answer): seq<Byte> {
    match op
    case Append(room, data) => if a == Done then data[..if room < |data| then room else |data|] else []
    case Put(c) => if a == Char(c) then [c] else []
    case _ => []
  }

  /** What the first n operations gave. */
  function AllGiven(ops: seq<Op>, answers: seq<Answer>, n: nat): seq<Byte>
    requires n <= |ops| == |answers|
  {
    if n == 0 then [] else AllGiven(ops, answers, n - 1) + Given(ops[n - 1], answers[n - 1])
  }

  /** The characters that an operation with this answer receives when these are left: what get answers, and what
      consume passes over. */
  function Received(left: seq<Byte>, op: Op, a: Answer): seq<Byte> {
    match op
    case Consume(k) => left[..if k < |left| then k else |left|]
    case Get => if a.Char? then Chars(a.c) else []
    case _ => []
  }

  /** What the first n operations received. */
  function AllReceived(q: seq<Byte>, ops: seq<Op>, answers: seq<Answer>, n: nat): seq<Byte>
    requires n <= |ops| == |answers|
    decreases n, 0
  {
    if n == 0 then []
    else
      AllReceived(q, ops, answers, n - 1) + Received(Left(q, ops, answers, n - 1), ops[n - 1], answers[n - 1])
  }

  /** What was there and what was given, without as many characters as were received. */
  function Left(q: seq<Byte>, ops: seq<Op>, answers: seq<Answer>, n: nat): seq<Byte>
    requires n <= |ops| == |answers|
    decreases n, 1
  {
    var all, gone := q + AllGiven(ops, answers, n), |AllReceived(q, ops, answers, n)|;
    if gone <= |all| then all[gone..] else []
  }

  lemma {:induction false} QueueAt(q: seq<Byte>, max: nat, ops: seq<Op>, n: nat)
    requires n < |ops|
    ensures |Queue(q, max, ops).1| == |ops|
    ensures (Queue(q, max, ops[..n + 1]).0, Queue(q, max, ops).1[n]) == Next(Queue(q, max, ops[..n]).0, max, ops[n])
    decreases n
  {
    AnswersEach(q, max, ops);
    if n == 0 {
      assert ops[..1] == [ops[0]];
    } else {
      QueueAt(Next(q, max, ops[0]).0, max, ops[1..], n - 1);
      assert ops[..n + 1][1..] == ops[1..][..n] && ops[..n][1..] == ops[1..][..n - 1];
    }
  }

  lemma {:induction false} AnswersEach(q: seq<Byte>, max: nat, ops: seq<Op>)
    ensures |Queue(q, max, ops).1| == |ops|
    decreases |ops|
  {
    if ops != [] {
      AnswersEach(Next(q, max, ops[0]).0, max, ops[1..]);
    }
  }

  lemma NextConserves(q: seq<Byte>, max: nat, op: Op)
    ensures var (q', a) := Next(q, max, op); q + Given(op, a) == Received(q, op, a) + q'
    ensures |q| <= max ==> |Next(q, max, op).0| <= max
  {
  }

  lemma Regroup(q: seq<Byte>, gs: seq<Byte>, rs: seq<Byte>, q': seq<Byte>, g: seq<Byte>, r: seq<Byte>, q'': seq<Byte>)
    requires q + gs == rs + q' && q' + g == r + q''
    ensures q + (gs + g) == (rs + r) + q''
  {
    assert q + (gs + g) == (q + gs) + g == rs + (q' + g);
  }

  lemma LeftIs(q: seq<Byte>, ops: seq<Op>, answers: seq<Answer>, n: nat, q': seq<Byte>)
    requires n <= |ops| == |answers|
    requires q + AllGiven(ops, answers, n) == AllReceived(q, ops, answers, n) + q'
    ensures Left(q, ops, answers, n) == q'
  {
  }

  /** In every run what was there and what was given is what was received and what is left, in order, and the bound
      is kept. */
  lemma {:induction false} QueueConserves(q: seq<Byte>, max: nat, ops: seq<Op>, n: nat)
    requires |q| <= max && n <= |ops|
    ensures var answers := Queue(q, max, ops).1;
      && |answers| == |ops|
      && q + AllGiven(ops, answers, n) == AllReceived(q, ops, answers, n) + Queue(q, max, ops[..n]).0
    ensures |Queue(q, max, ops[..n]).0| <= max
  {
    hide Next, Given, Received, Left;
    AnswersEach(q, max, ops);
    if n > 0 {
      QueueConserves(q, max, ops, n - 1);
      QueueAt(q, max, ops, n - 1);
      var answers, q' := Queue(q, max, ops).1, Queue(q, max, ops[..n - 1]).0;
      LeftIs(q, ops, answers, n - 1, q');
      NextConserves(q', max, ops[n - 1]);
      Regroup(q, AllGiven(ops, answers, n - 1), AllReceived(q, ops, answers, n - 1), q',
              Given(ops[n - 1], answers[n - 1]), Received(q', ops[n - 1], answers[n - 1]), Queue(q, max, ops[..n]).0);
    }
  }

  /** And every answer follows from what was given and received before: an operation is refused exactly when what is
      left would exceed the bound, and get and peek answer the oldest character that is left. */
  lemma AnswersFollow(q: seq<Byte>, max: nat, ops: seq<Op>, n: nat)
    requires |q| <= max && n < |ops|
    ensures var answers := Queue(q, max, ops).1;
      && |answers| == |ops|
      && var left := Left(q, ops, answers, n);
         answers[n] ==
           match ops[n]
           case Append(room, _) => if |left| + room <= max then Done else Full
           case Put(c) => if |left| + 1 <= max then Char(c) else Full
           case Consume(_) => Done
           case _ => Char(if left == [] then EOF else left[0])
  {
    QueueConserves(q, max, ops, n);
    QueueAt(q, max, ops, n);
    LeftIs(q, ops, Queue(q, max, ops).1, n, Queue(q, max, ops[..n]).0);
  }
}
