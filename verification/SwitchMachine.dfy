/** The fragment of C++ that the macros of asio/coroutine.hpp expand to: a switch
    whose case labels sit inside nested loops, infinite for loops, gotos, and one
    integer with a flag that records whether it was assigned. */
module SwitchMachine {
  import opened Wrappers
  import opened CoroutineDirect

  datatype Label = Terminate | BailOut

  datatype Test =
    | Cond(c: nat)      // a condition of the user's code
    | NonZero           // if (_coro_value)
    | Equals(n: int)    // if (_coro_value == n)

  datatype Selector =
    | Value             // switch (_coro_value)
    | ZeroToOne         // switch (_coro_value ? 0 : 1)

  datatype Code =
    | Nop
    | Perform(action: nat)
    | Spawn(action: nat)                    // performs an action on a copy of the coroutine
    | Assign(v: int)                        // _coro_value = v
    | Block(first: Code, second: Code)
    | Branch(test: Test, thn: Code, els: Code)
    | WhileLoop(cond: nat, body: Code)
    | DoLoop(body: Code, cond: nat)
    | ForEver(body: Code, post: Code)       // for (;; post) body
    | Switch(on: Selector, body: Code)
    | Case(n: int, s: Code)
    | Labelled(l: Label, s: Code)
    | Jump(l: Label)
    | BreakOut
    | ContinueLoop
    | ReturnNow

  datatype Frame =
    | Halt
    | FSeq(s: Code, k: Frame)
    | FWhile(cond: nat, body: Code, k: Frame)
    | FDo(body: Code, cond: nat, k: Frame)
    | FLoop(body: Code, post: Code, k: Frame)
    | FPost(body: Code, post: Code, k: Frame)
    | FSwitch(k: Frame)

  datatype Machine = Machine(s: Code, k: Frame, value: int, modified: bool, trace: Trace, kids: seq<int>)

  function OrElse<T>(a: Option<T>, b: Option<T>): Option<T> {
    if a.Some? then a else b
  }

  /** Where a switch over `s` jumps for value `n`: the labelled code and all that
      follows it.  The labels of an inner switch are its own. */
  function FindCase(n: int, s: Code, k: Frame): Option<(Code, Frame)> {
    match s
    case Block(s1, s2) => OrElse(FindCase(n, s1, FSeq(s2, k)), FindCase(n, s2, k))
    case Branch(_, s1, s2) => OrElse(FindCase(n, s1, k), FindCase(n, s2, k))
    case WhileLoop(c, b) => FindCase(n, b, FWhile(c, b, k))
    case DoLoop(b, c) => FindCase(n, b, FDo(b, c, k))
    case ForEver(b, post) => FindCase(n, b, FLoop(b, post, k))
    case Case(m, s1) => if m == n then Some((s1, k)) else FindCase(n, s1, k)
    case Labelled(_, s1) => FindCase(n, s1, k)
    case _ => None
  }

  /** Where `goto l` jumps; unlike a case label, the target may be inside any statement. */
  function FindLabel(l: Label, s: Code, k: Frame): Option<(Code, Frame)> {
    match s
    case Block(s1, s2) => OrElse(FindLabel(l, s1, FSeq(s2, k)), FindLabel(l, s2, k))
    case Branch(_, s1, s2) => OrElse(FindLabel(l, s1, k), FindLabel(l, s2, k))
    case WhileLoop(c, b) => FindLabel(l, b, FWhile(c, b, k))
    case DoLoop(b, c) => FindLabel(l, b, FDo(b, c, k))
    case ForEver(b, post) => FindLabel(l, b, FLoop(b, post, k))
    case Switch(_, b) => FindLabel(l, b, FSwitch(k))
    case Case(_, s1) => FindLabel(l, s1, k)
    case Labelled(l', s1) => if l' == l then Some((s1, k)) else FindLabel(l, s1, k)
    case _ => None
  }

  function AfterBreak(k: Frame): Frame {
    match k
    case Halt => Halt
    case FSeq(_, k') => AfterBreak(k')
    case FPost(_, _, k') => AfterBreak(k')
    case FWhile(_, _, k') => k'
    case FDo(_, _, k') => k'
    case FLoop(_, _, k') => k'
    case FSwitch(k') => k'
  }

  /** `continue` passes through a switch. */
  function AfterContinue(k: Frame): Frame {
    match k
    case Halt => Halt
    case FSeq(_, k') => AfterContinue(k')
    case FPost(_, _, k') => AfterContinue(k')
    case FSwitch(k') => AfterContinue(k')
    case FWhile(_, _, _) => k
    case FDo(_, _, _) => k
    case FLoop(_, _, _) => k
  }

  predicate Holds(o: Oracle, t: Test, m: Machine) {
    match t
    case Cond(c) => o(c, m.trace, m.value < 0)
    case NonZero => m.value != 0
    case Equals(n) => m.value == n
  }

  function Selected(e: Selector, m: Machine): int {
    match e
    case Value => m.value
    case ZeroToOne => if m.value != 0 then 0 else 1
  }

  function At(m: Machine, target: Option<(Code, Frame)>, otherwise: Frame): Machine {
    match target
    case Some((s, k)) => m.(s := s, k := k)
    case None => m.(s := Nop, k := otherwise)
  }

  function Resume(o: Oracle, m: Machine): Machine {
    match m.k
    case Halt => m
    case FSeq(s, k) => m.(s := s, k := k)
    case FWhile(c, b, k) => m.(s := WhileLoop(c, b), k := k)
    case FDo(b, c, k) => if Holds(o, Cond(c), m) then m.(s := b) else m.(k := k)
    case FLoop(b, post, k) => m.(s := post, k := FPost(b, post, k))
    case FPost(b, post, k) => m.(s := b, k := FLoop(b, post, k))
    case FSwitch(k) => m.(k := k)
  }

  function Step(p: Code, o: Oracle, m: Machine): Machine {
    match m.s
    case Nop => Resume(o, m)
    case Perform(a) => m.(s := Nop, trace := m.trace + [Did(a, m.value < 0)])
    case Spawn(a) => m.(s := Nop, trace := m.trace + [Did(a, m.value < 0)], kids := m.kids + [m.value])
    case Assign(v) => m.(s := Nop, value := v, modified := true)
    case Block(s1, s2) => m.(s := s1, k := FSeq(s2, m.k))
    case Branch(t, s1, s2) => m.(s := if Holds(o, t, m) then s1 else s2)
    case WhileLoop(c, b) =>
      if Holds(o, Cond(c), m) then m.(s := b, k := FWhile(c, b, m.k)) else m.(s := Nop)
    case DoLoop(b, c) => m.(s := b, k := FDo(b, c, m.k))
    case ForEver(b, post) => m.(s := b, k := FLoop(b, post, m.k))
    case Switch(e, b) => At(m, FindCase(Selected(e, m), b, FSwitch(m.k)), m.k)
    case Case(_, s) => m.(s := s)
    case Labelled(_, s) => m.(s := s)
    case Jump(l) => At(m, FindLabel(l, p, Halt), Halt)
    case BreakOut => m.(s := Nop, k := AfterBreak(m.k))
    case ContinueLoop => m.(s := Nop, k := AfterContinue(m.k))
    case ReturnNow => m.(s := Nop, k := Halt)
  }

  predicate Halted(m: Machine) {
    m.s == Nop && m.k == Halt
  }

  function Steps(p: Code, o: Oracle, m: Machine, n: nat): Machine
    decreases n
  {
    if n == 0 then m else Steps(p, o, Step(p, o, m), n - 1)
  }

  /** What ~coroutine_ref leaves in the coroutine. */
  function Destroyed(m: Machine): int {
    if m.modified then m.value else -1
  }

  lemma {:induction false} StepsAdd(p: Code, o: Oracle, m: Machine, a: nat, b: nat)
    ensures Steps(p, o, m, a + b) == Steps(p, o, Steps(p, o, m, a), b)
    decreases a
  {
    if a != 0 {
      StepsAdd(p, o, Step(p, o, m), a - 1, b);
    }
  }

  lemma {:induction false} HaltedStays(p: Code, o: Oracle, m: Machine, n: nat)
    requires Halted(m)
    ensures Steps(p, o, m, n) == m
    decreases n
  {
    if n != 0 {
      HaltedStays(p, o, m, n - 1);
    }
  }
}
