/** The coroutine body language and its direct meaning.
    A suspended coroutine holds the code it has yet to run: its continuation.
    Nothing here refers to switches, jumps or the integer of `asio::coroutine`;
    labels only annotate the yield and fork statements. */
module CoroutineDirect {
  import opened Wrappers

  /** An action that was performed, and what is_child() would have answered at that moment. */
  datatype Event = Did(action: nat, asChild: bool)

  type Trace = seq<Event>

  /** Decides the branch conditions of a body.  Everything a program can test is a
      function of the actions so far and of is_child(), so an arbitrary function
      stands for an arbitrary program state. */
  type Oracle = (nat, Trace, bool) -> bool

  datatype Stmt =
    | Skip
    | Act(action: nat)
    | Seq(first: Stmt, second: Stmt)
    | If(cond: nat, thn: Stmt, els: Stmt)
    | While(cond: nat, body: Stmt)
    | DoWhile(body: Stmt, cond: nat)
    | Break
    | Continue
    | Return
    | Yield(line: int, action: nat)        // yield statement;
    | YieldReturn(line: int, action: nat)  // yield return expression;
    | YieldBreak(line: int)                // yield break;
    | Fork(line: int, action: nat)         // fork statement;

  /** What remains to be run, innermost first. */
  datatype Kont =
    | Stop
    | KSeq(s: Stmt, k: Kont)
    | KWhile(cond: nat, body: Stmt, k: Kont)
    | KDo(body: Stmt, cond: nat, k: Kont)

  /** A coroutine between two activations.
      `Spent` is the parent of a fork that left the body without another yield:
      it has nothing left to run but does not report completion yet. */
  datatype Coro =
    | Fresh
    | After(k: Kont)
    | Child(k: Kont)
    | Spent
    | Done

  /** An activation in progress or ended.  `kids` are the copies made by fork
      statements, in order. */
  datatype State =
    | Run(s: Stmt, k: Kont, child: bool, forked: bool, trace: Trace, kids: seq<Coro>)
    | End(coro: Coro, trace: Trace, kids: seq<Coro>)

  /** The continuation after `break`; none when no loop encloses it, so that it leaves the body. */
  function BreakTo(k: Kont): Option<Kont> {
    match k
    case Stop => None
    case KSeq(_, k') => BreakTo(k')
    case KWhile(_, _, k') => Some(k')
    case KDo(_, _, k') => Some(k')
  }

  /** The continuation after `continue`: the frame of the enclosing loop, which tests again. */
  function ContinueTo(k: Kont): Option<Kont> {
    match k
    case Stop => None
    case KSeq(_, k') => ContinueTo(k')
    case KWhile(_, _, _) => Some(k)
    case KDo(_, _, _) => Some(k)
  }

  /** The activation leaves the body without yielding. */
  function Leave(st: State): State
    requires st.Run?
  {
    End(if st.forked then Spent else Done, st.trace, st.kids)
  }

  function Goto(st: State, target: Option<Kont>): State
    requires st.Run?
  {
    match target
    case None => Leave(st)
    case Some(k) => st.(s := Skip, k := k)
  }

  /** A statement that has finished normally hands over to its continuation. */
  function Resume(o: Oracle, st: State): State
    requires st.Run?
  {
    match st.k
    case Stop => Leave(st)
    case KSeq(s, k) => st.(s := s, k := k)
    case KWhile(c, b, k) => st.(s := While(c, b), k := k)
    case KDo(b, c, k) => if o(c, st.trace, st.child) then st.(s := b) else st.(k := k)
  }

  function Step(o: Oracle, st: State): State {
    if st.End? then st else
    match st.s
    case Skip => Resume(o, st)
    case Act(a) => st.(s := Skip, trace := st.trace + [Did(a, st.child)])
    case Seq(s1, s2) => st.(s := s1, k := KSeq(s2, st.k))
    case If(c, s1, s2) => st.(s := if o(c, st.trace, st.child) then s1 else s2)
    case While(c, b) =>
      if o(c, st.trace, st.child) then st.(s := b, k := KWhile(c, b, st.k)) else st.(s := Skip)
    case DoWhile(b, c) => st.(s := b, k := KDo(b, c, st.k))
    case Break => Goto(st, BreakTo(st.k))
    case Continue => Goto(st, ContinueTo(st.k))
    case Return => Leave(st)
    case Yield(_, a) => End(After(st.k), st.trace + [Did(a, false)], st.kids)
    case YieldReturn(_, a) => End(After(st.k), st.trace + [Did(a, false)], st.kids)
    case YieldBreak(_) => End(Done, st.trace, st.kids)
    case Fork(_, a) =>
      st.(s := Skip, child := false, forked := true,
          trace := st.trace + [Did(a, true)], kids := st.kids + [Child(st.k)])
  }

  function Steps(o: Oracle, st: State, n: nat): State
    decreases n
  {
    if n == 0 then st else Steps(o, Step(o, st), n - 1)
  }

  /** How an activation of a coroutine begins. */
  function Enter(body: Stmt, coro: Coro, trace: Trace): State {
    match coro
    case Fresh => Run(body, Stop, false, false, trace, [])
    case After(k) => Run(Skip, k, false, false, trace, [])
    case Child(k) => Run(Skip, k, true, false, trace, [])
    case Spent => End(Done, trace, [])
    case Done => End(Done, trace, [])
  }
}
