/** The macros ASIO_CORO_REENTER, ASIO_CORO_YIELD_IMPL and ASIO_CORO_FORK_IMPL. */
module CoroutineMacros {
  import opened CoroutineDirect
  import opened SwitchMachine

  /** The loop around the statement of a yield, entered at its case 0.  Falling off
      the statement reaches `goto bail_out_of_coroutine`. */
  function YieldInner(s: Code): Code {
    Case(1, Branch(NonZero, Jump(BailOut), Case(0, s)))
  }

  /** The loop around that one; `yield break` falls into it and terminates. */
  function YieldOuter(s: Code): Code {
    Case(-1, Branch(NonZero, Jump(Terminate), ForEver(YieldInner(s), Nop)))
  }

  function YieldLoop(n: int, s: Code): Code {
    Branch(Equals(0),
           Block(Case(n, Nop), BreakOut),
           Switch(ZeroToOne, ForEver(YieldOuter(s), Nop)))
  }

  function YieldImpl(n: int, s: Code): Code {
    Block(Assign(n), ForEver(YieldLoop(n, s), Nop))
  }

  function ForkLoop(n: int, s: Code): Code {
    Branch(Equals(n), Block(Case(-n, Nop), BreakOut), s)
  }

  function ForkImpl(n: int, s: Code): Code {
    Block(Assign(-n), ForEver(ForkLoop(n, s), Assign(n)))
  }

  function Reenter(body: Code): Code {
    Switch(Value, Case(-1, Branch(NonZero, TerminateBlock(), Case(0, body))))
  }

  function TerminateBlock(): Code {
    Block(Jump(Terminate),
    Block(Labelled(Terminate, Assign(-1)),
    Block(Jump(BailOut),
          Labelled(BailOut, BreakOut))))
  }

  /** A body with its pseudo-keywords expanded. */
  function Expand(s: Stmt): Code {
    match s
    case Skip => Nop
    case Act(a) => Perform(a)
    case Seq(s1, s2) => Block(Expand(s1), Expand(s2))
    case If(c, s1, s2) => Branch(Cond(c), Expand(s1), Expand(s2))
    case While(c, b) => WhileLoop(c, Expand(b))
    case DoWhile(b, c) => DoLoop(Expand(b), c)
    case Break => BreakOut
    case Continue => ContinueLoop
    case Return => ReturnNow
    case Yield(n, a) => YieldImpl(n, Perform(a))
    case YieldReturn(n, a) => YieldImpl(n, Block(Perform(a), ReturnNow))
    case YieldBreak(n) => YieldImpl(n, BreakOut)
    case Fork(n, a) => ForkImpl(n, Spawn(a))
  }

  /** One activation: `reenter (c) body` on a coroutine whose integer is `value`. */
  function Activation(body: Stmt, value: int, trace: Trace): Machine {
    Machine(Reenter(Expand(body)), Halt, value, false, trace, [])
  }
}
