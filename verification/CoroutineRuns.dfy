/** Whole activations, and whole runs of a coroutine together with the copies that
    its fork statements make, re-entered in any order. */
module CoroutineRuns {
  import opened Wrappers
  import opened CoroutineDirect
  import opened CoroutineMacros
  import opened CoroutineSimulation
  import M = SwitchMachine

  function Program(body: Stmt): M.Code {
    Reenter(Expand(body))
  }

  // ---------- the switch of reenter ----------

  lemma SwitchOfReenter(v: int, body: M.Code, k: M.Frame)
    ensures var branch := M.Branch(M.NonZero, TerminateBlock(), M.Case(0, body));
      M.FindCase(v, M.Case(-1, branch), k) ==
        if v == -1 then Some((branch, k)) else if v == 0 then Some((body, k)) else M.FindCase(v, body, k)
  {
    var tail := M.Block(M.Jump(M.BailOut), M.Labelled(M.BailOut, M.BreakOut));
    var rest := M.Block(M.Labelled(M.Terminate, M.Assign(-1)), tail);
    assert M.FindCase(v, M.Labelled(M.BailOut, M.BreakOut), k) == None;
    assert M.FindCase(v, tail, k) == None;
    assert M.FindCase(v, M.Labelled(M.Terminate, M.Assign(-1)), M.FSeq(tail, k)) == None;
    assert M.FindCase(v, rest, k) == None;
    assert M.FindCase(v, M.Jump(M.Terminate), M.FSeq(rest, k)) == None;
    assert M.FindCase(v, TerminateBlock(), k) == None;
    assert M.FindCase(v, M.Case(0, body), k) == if v == 0 then Some((body, k)) else M.FindCase(v, body, k);
    assert M.FindCase(v, M.Branch(M.NonZero, TerminateBlock(), M.Case(0, body)), k) ==
      M.FindCase(v, M.Case(0, body), k);
  }

  /** What `reenter` does first, for every value the integer can have: -1 goes to
      termination, 0 starts the body, a label resumes after its pseudo-keyword, and
      any other value skips the body. */
  lemma Dispatch(body: Stmt, o: Oracle, v: int, trace: Trace)
    ensures var m, k := Activation(body, v, trace), M.FSwitch(M.Halt);
      var m' := M.Step(Program(body), o, m);
      if v == -1 then m' == m.(s := M.Branch(M.NonZero, TerminateBlock(), M.Case(0, Expand(body))), k := k)
      else if v == 0 then m' == m.(s := Expand(body), k := k)
      else match Find(v, body, Stop)
        case None => m' == m.(s := M.Nop)
        case Some(k') => m' == m.(s := M.Nop, k := m'.k) && AtCase(Some((M.Nop, m'.k)), k')
  {
    SwitchOfReenter(v, Expand(body), M.FSwitch(M.Halt));
    ExpansionKeepsLabels(v, body, Stop);
  }

  lemma EnterDone(body: Stmt, o: Oracle, trace: Trace) returns (n: nat)
    ensures M.Steps(Program(body), o, Activation(body, -1, trace), n) ==
      M.Machine(M.Nop, M.Halt, -1, true, trace, [])
  {
    var p, m := Program(body), Activation(body, -1, trace);
    Dispatch(body, o, -1, trace);
    var m1 := M.Step(p, o, m);
    var m2 := M.Step(p, o, m1);
    var m3 := M.Step(p, o, m2);
    Termination(Expand(body), o, m3);
    assert M.Steps(p, o, m1, 11) == M.Steps(p, o, m3, 9);
    assert M.Steps(p, o, m, 12) == M.Steps(p, o, m1, 11);
    n := 12;
  }

  lemma EnterLabel(body: Stmt, o: Oracle, v: int, trace: Trace, k: Kont) returns (n: nat)
    requires v != 0 && v != -1 && Find(v, body, Stop) == Some(k)
    ensures M.Steps(Program(body), o, Activation(body, v, trace), n) ==
      M.Machine(M.Nop, Frames(k), v, false, trace, [])
  {
    var p, m := Program(body), Activation(body, v, trace);
    Dispatch(body, o, v, trace);
    var m1 := M.Step(p, o, m);
    var m2 := M.Step(p, o, m1);
    var m3 := M.Step(p, o, m2);
    assert M.Steps(p, o, m1, 2) == m3;
    assert M.Steps(p, o, m, 3) == M.Steps(p, o, m1, 2);
    n := 3;
  }

  lemma EnterAtLabel(body: Stmt, o: Oracle, c: Coro, v: int, trace: Trace) returns (n: nat)
    requires Distinct(body) && Encodes(Targets(body), v, c) && (c.After? || c.Child?)
    ensures Related(Targets(body), Enter(body, c, trace), M.Steps(Program(body), o, Activation(body, v, trace), n))
  {
    assert Place(Targets(body), body, Stop);
    PlacesAfterLabel(Targets(body), v, body, Stop);
    n := EnterLabel(body, o, v, trace, c.k);
    hide Find, Labels, Distinct;
  }

  lemma EnterInOneStep(body: Stmt, o: Oracle, c: Coro, v: int, trace: Trace)
    requires WellLabelled(body) && Encodes(Targets(body), v, c) && (c.Fresh? || c.Spent?)
    ensures Related(Targets(body), Enter(body, c, trace), M.Step(Program(body), o, Activation(body, v, trace)))
  {
    FindFindsLabels(v, body, Stop);
    FindFindsLabels(-v, body, Stop);
    Dispatch(body, o, v, trace);
    hide Find, M.FindCase, M.FindLabel;
  }

  /** A coroutine's integer leads the expansion to the place where the direct activation begins. */
  lemma EnterSimulated(body: Stmt, o: Oracle, c: Coro, v: int, trace: Trace) returns (n: nat)
    requires WellLabelled(body) && Encodes(Targets(body), v, c)
    ensures Related(Targets(body), Enter(body, c, trace), M.Steps(Program(body), o, Activation(body, v, trace), n))
  {
    hide Find, Labels, Distinct;
    if c.Done? {
      n := EnterDone(body, o, trace);
    } else if c.After? || c.Child? {
      n := EnterAtLabel(body, o, c, v, trace);
    } else {
      EnterInOneStep(body, o, c, v, trace);
      assert M.Steps(Program(body), o, Activation(body, v, trace), 1) ==
        M.Step(Program(body), o, Activation(body, v, trace));
      n := 1;
    }
  }

  /** A parent that has left the body after a fork has nothing to run, if and only if no
      yield shares the line of its fork. */
  lemma ParentRests(body: Stmt, o: Oracle, n: nat, trace: Trace)
    requires n > 0
    ensures var m := Activation(body, n, trace);
      M.Step(Program(body), o, m) == m.(s := M.Nop) <==> n !in Labels(body)
  {
    Dispatch(body, o, n, trace);
    FindFindsLabels(n, body, Stop);
  }

  // ---------- one activation ----------

  lemma {:induction false} EndStays(o: Oracle, d: State, n: nat)
    requires d.End?
    ensures Steps(o, d, n) == d
    decreases n
  {
    if n != 0 {
      EndStays(o, d, n - 1);
    }
  }

  lemma {:induction false} DirectStepsAdd(o: Oracle, d: State, a: nat, b: nat)
    ensures Steps(o, d, a + b) == Steps(o, Steps(o, d, a), b)
    decreases a
  {
    if a != 0 {
      DirectStepsAdd(o, Step(o, d), a - 1, b);
    }
  }

  /** The expansion follows a direct run of any length. */
  lemma {:induction false} Forward(table: Table, body: M.Code, o: Oracle, d: State, m: M.Machine, n: nat)
    returns (g: nat)
    requires Related(table, d, m)
    ensures Related(table, Steps(o, d, n), M.Steps(Reenter(body), o, m, g))
    decreases n
  {
    if n == 0 {
      g := 0;
    } else if d.End? {
      EndStays(o, d, n);
      g := 0;
    } else {
      var c := StepSimulated(table, body, o, d, m);
      var g' := Forward(table, body, o, Step(o, d), M.Steps(Reenter(body), o, m, c), n - 1);
      M.StepsAdd(Reenter(body), o, m, c, g');
      g := c + g';
    }
  }

  /** When the expansion has halted after g steps, the direct run has ended by then. */
  lemma {:induction false} Backward(table: Table, body: M.Code, o: Oracle, d: State, m: M.Machine, g: nat)
    requires Related(table, d, m) && M.Halted(M.Steps(Reenter(body), o, m, g))
    ensures Steps(o, d, g).End? && Related(table, Steps(o, d, g), M.Steps(Reenter(body), o, m, g))
    decreases g
  {
    var p := Reenter(body);
    if d.End? {
      EndStays(o, d, g);
      M.HaltedStays(p, o, m, g);
    } else {
      var c := StepSimulated(table, body, o, d, m);
      var d', m' := Step(o, d), M.Steps(p, o, m, c);
      assert g > 0;
      if c <= g {
        M.StepsAdd(p, o, m, c, g - c);
        Backward(table, body, o, d', m', g - c);
        DirectStepsAdd(o, d', g - c, c - 1);
        EndStays(o, Steps(o, d', g - c), c - 1);
      } else {
        M.StepsAdd(p, o, m, g, c - g);
        M.HaltedStays(p, o, M.Steps(p, o, m, g), c - g);
        EndStays(o, d', g - 1);
      }
    }
  }

  lemma ForwardFrom(table: Table, body: M.Code, o: Oracle, d: State, m: M.Machine, e: nat, n: nat) returns (g: nat)
    requires Related(table, d, M.Steps(Reenter(body), o, m, e))
    ensures Related(table, Steps(o, d, n), M.Steps(Reenter(body), o, m, g))
  {
    var g' := Forward(table, body, o, d, M.Steps(Reenter(body), o, m, e), n);
    M.StepsAdd(Reenter(body), o, m, e, g');
    g := e + g';
  }

  lemma ActivationForward(body: Stmt, o: Oracle, c: Coro, v: int, trace: Trace, n: nat) returns (g: nat)
    requires WellLabelled(body) && Encodes(Targets(body), v, c)
    ensures Related(Targets(body), Steps(o, Enter(body, c, trace), n),
                    M.Steps(Program(body), o, Activation(body, v, trace), g))
  {
    var e := EnterSimulated(body, o, c, v, trace);
    g := ForwardFrom(Targets(body), Expand(body), o, Enter(body, c, trace), Activation(body, v, trace), e, n);
  }

  lemma ActivationBackward(body: Stmt, o: Oracle, c: Coro, v: int, trace: Trace, g: nat)
    requires WellLabelled(body) && Encodes(Targets(body), v, c)
    requires M.Halted(M.Steps(Program(body), o, Activation(body, v, trace), g))
    ensures var d := Steps(o, Enter(body, c, trace), g);
      d.End? && Related(Targets(body), d, M.Steps(Program(body), o, Activation(body, v, trace), g))
  {
    var p, m, d := Program(body), Activation(body, v, trace), Enter(body, c, trace);
    var e := EnterSimulated(body, o, c, v, trace);
    var m' := M.Steps(p, o, m, e);
    M.HaltedStays(p, o, M.Steps(p, o, m, g), e);
    M.StepsAdd(p, o, m, g, e);
    M.StepsAdd(p, o, m, e, g);
    Backward(Targets(body), Expand(body), o, d, m', g);
  }

  // ---------- runs over a pool of coroutines ----------

  /** One turn of a scheduler: the coroutine to re-enter, and the program state it meets. */
  datatype Turn = Turn(who: nat, o: Oracle)

  /** A finished run: the coroutines as they are left, and all actions in order. */
  datatype Outcome<C> = Outcome(pool: seq<C>, trace: Trace)

  /** The run that re-enters members of the pool as scheduled; copies made by forks
      join the pool.  None when an activation needs more than `fuel` steps. */
  function DirectRun(body: Stmt, turns: seq<Turn>, pool: seq<Coro>, trace: Trace, fuel: nat): Option<Outcome<Coro>> {
    if turns == [] then Some(Outcome(pool, trace))
    else if turns[0].who >= |pool| then DirectRun(body, turns[1..], pool, trace, fuel)
    else
      var d := Steps(turns[0].o, Enter(body, pool[turns[0].who], trace), fuel);
      if d.Run? then None
      else DirectRun(body, turns[1..], pool[turns[0].who := d.coro] + d.kids, d.trace, fuel)
  }

  /** The same on coroutines that are integers, with the expanded body. */
  function MacroRun(body: Stmt, turns: seq<Turn>, pool: seq<int>, trace: Trace, fuel: nat): Option<Outcome<int>> {
    if turns == [] then Some(Outcome(pool, trace))
    else if turns[0].who >= |pool| then MacroRun(body, turns[1..], pool, trace, fuel)
    else
      var m := M.Steps(Program(body), turns[0].o, Activation(body, pool[turns[0].who], trace), fuel);
      if !M.Halted(m) then None
      else MacroRun(body, turns[1..], pool[turns[0].who := M.Destroyed(m)] + m.kids, m.trace, fuel)
  }

  /** Both runs finish, with the same actions and corresponding coroutines. */
  predicate SameOutcome(table: Table, r: Option<Outcome<int>>, s: Option<Outcome<Coro>>) {
    r.Some? && s.Some? && r.value.trace == s.value.trace && EncodesAll(table, r.value.pool, s.value.pool)
  }

  lemma {:induction false} MoreFuel(body: Stmt, turns: seq<Turn>, pool: seq<int>, trace: Trace, g: nat, g': nat)
    requires g <= g' && MacroRun(body, turns, pool, trace, g).Some?
    ensures MacroRun(body, turns, pool, trace, g') == MacroRun(body, turns, pool, trace, g)
    decreases |turns|
  {
    if turns == [] {
    } else if turns[0].who >= |pool| {
      MoreFuel(body, turns[1..], pool, trace, g, g');
    } else {
      var p, o, m := Program(body), turns[0].o, Activation(body, pool[turns[0].who], trace);
      var m' := M.Steps(p, o, m, g);
      M.StepsAdd(p, o, m, g, g' - g);
      M.HaltedStays(p, o, m', g' - g);
      MoreFuel(body, turns[1..], pool[turns[0].who := M.Destroyed(m')] + m'.kids, m'.trace, g, g');
    }
  }

  lemma PoolAfterTurn(table: Table, vs: seq<int>, cs: seq<Coro>, i: nat, v: int, c: Coro,
                      vkids: seq<int>, ckids: seq<Coro>)
    requires EncodesAll(table, vs, cs) && i < |cs| && Encodes(table, v, c) && EncodesAll(table, vkids, ckids)
    ensures |vs| == |cs| && Encodes(table, vs[i], cs[i])
    ensures EncodesAll(table, vs[i := v] + vkids, cs[i := c] + ckids)
  {
    hide Encodes;
    EncodesEach(table, vs, cs);
    EncodesEach(table, vkids, ckids);
    EncodesEach(table, vs[i := v] + vkids, cs[i := c] + ckids);
  }

  /** One activation of a member of the pool, run by the expansion. */
  lemma TurnForward(body: Stmt, turn: Turn, vs: seq<int>, cs: seq<Coro>, trace: Trace, f: nat) returns (a: nat)
    requires WellLabelled(body) && EncodesAll(Targets(body), vs, cs) && turn.who < |cs|
    requires Steps(turn.o, Enter(body, cs[turn.who], trace), f).End?
    ensures var d := Steps(turn.o, Enter(body, cs[turn.who], trace), f);
      var m := M.Steps(Program(body), turn.o, Activation(body, vs[turn.who], trace), a);
      M.Halted(m) && m.trace == d.trace &&
      EncodesAll(Targets(body), vs[turn.who := M.Destroyed(m)] + m.kids, cs[turn.who := d.coro] + d.kids)
  {
    var i := turn.who;
    EncodesEach(Targets(body), vs, cs);
    var d := Steps(turn.o, Enter(body, cs[i], trace), f);
    a := ActivationForward(body, turn.o, cs[i], vs[i], trace, f);
    var m := M.Steps(Program(body), turn.o, Activation(body, vs[i], trace), a);
    PoolAfterTurn(Targets(body), vs, cs, i, M.Destroyed(m), d.coro, m.kids, d.kids);
  }

  lemma {:induction false} RunForward(body: Stmt, turns: seq<Turn>, vs: seq<int>, cs: seq<Coro>, trace: Trace, f: nat)
    returns (g: nat)
    requires WellLabelled(body) && EncodesAll(Targets(body), vs, cs)
    requires DirectRun(body, turns, cs, trace, f).Some?
    ensures SameOutcome(Targets(body), MacroRun(body, turns, vs, trace, g), DirectRun(body, turns, cs, trace, f))
    decreases |turns|
  {
    g := 0;
    if turns == [] {
    } else if turns[0].who >= |cs| {
      g := RunForward(body, turns[1..], vs, cs, trace, f);
    } else {
      var i, o := turns[0].who, turns[0].o;
      var d := Steps(o, Enter(body, cs[i], trace), f);
      var a := TurnForward(body, turns[0], vs, cs, trace, f);
      var m := M.Steps(Program(body), o, Activation(body, vs[i], trace), a);
      var vs' := vs[i := M.Destroyed(m)] + m.kids;
      var b := RunForward(body, turns[1..], vs', cs[i := d.coro] + d.kids, d.trace, f);
      g := if a < b then b else a;
      MoreFuel(body, turns[1..], vs', d.trace, b, g);
      TurnWithFuel(body, turns, vs, trace, a, g);
    }
  }

  lemma TurnWithFuel(body: Stmt, turns: seq<Turn>, vs: seq<int>, trace: Trace, a: nat, g: nat)
    requires turns != [] && turns[0].who < |vs| && a <= g
    requires M.Halted(M.Steps(Program(body), turns[0].o, Activation(body, vs[turns[0].who], trace), a))
    ensures var m := M.Steps(Program(body), turns[0].o, Activation(body, vs[turns[0].who], trace), a);
      MacroRun(body, turns, vs, trace, g) ==
      MacroRun(body, turns[1..], vs[turns[0].who := M.Destroyed(m)] + m.kids, m.trace, g)
  {
    var p, o, m := Program(body), turns[0].o, Activation(body, vs[turns[0].who], trace);
    M.StepsAdd(p, o, m, a, g - a);
    M.HaltedStays(p, o, M.Steps(p, o, m, a), g - a);
  }

  lemma {:induction false} RunBackward(body: Stmt, turns: seq<Turn>, vs: seq<int>, cs: seq<Coro>, trace: Trace, g: nat)
    requires WellLabelled(body) && EncodesAll(Targets(body), vs, cs)
    requires MacroRun(body, turns, vs, trace, g).Some?
    ensures SameOutcome(Targets(body), MacroRun(body, turns, vs, trace, g), DirectRun(body, turns, cs, trace, g))
    decreases |turns|
  {
    if turns == [] {
    } else if turns[0].who >= |cs| {
      RunBackward(body, turns[1..], vs, cs, trace, g);
    } else {
      var i, o := turns[0].who, turns[0].o;
      EncodesEach(Targets(body), vs, cs);
      ActivationBackward(body, o, cs[i], vs[i], trace, g);
      var d := Steps(o, Enter(body, cs[i], trace), g);
      var m' := M.Steps(Program(body), o, Activation(body, vs[i], trace), g);
      PoolAfterTurn(Targets(body), vs, cs, i, M.Destroyed(m'), d.coro, m'.kids, d.kids);
      RunBackward(body, turns[1..], vs[i := M.Destroyed(m')] + m'.kids, cs[i := d.coro] + d.kids, d.trace, g);
    }
  }

  lemma OutcomesAgree(body: Stmt, turns: seq<Turn>, vs: seq<int>, cs: seq<Coro>, trace: Trace, f: nat, g: nat)
    requires WellLabelled(body) && EncodesAll(Targets(body), vs, cs)
    requires DirectRun(body, turns, cs, trace, f).Some? && MacroRun(body, turns, vs, trace, g).Some?
    ensures SameOutcome(Targets(body), MacroRun(body, turns, vs, trace, g), DirectRun(body, turns, cs, trace, f))
  {
    var g' := RunForward(body, turns, vs, cs, trace, f);
    if g' <= g {
      MoreFuel(body, turns, vs, trace, g', g);
    } else {
      MoreFuel(body, turns, vs, trace, g, g');
    }
  }

  lemma BothFinish(body: Stmt, turns: seq<Turn>, vs: seq<int>, cs: seq<Coro>, trace: Trace)
    requires WellLabelled(body) && EncodesAll(Targets(body), vs, cs)
    ensures (exists f: nat :: DirectRun(body, turns, cs, trace, f).Some?)
       <==> (exists g: nat :: MacroRun(body, turns, vs, trace, g).Some?)
  {
    if f: nat :| DirectRun(body, turns, cs, trace, f).Some? {
      var g := RunForward(body, turns, vs, cs, trace, f);
    }
    if g: nat :| MacroRun(body, turns, vs, trace, g).Some? {
      RunBackward(body, turns, vs, cs, trace, g);
    }
  }

  /** For every body, program and schedule: the macros finish exactly when the direct
      meaning does, and then they have performed the same actions. */
  lemma RunsAgree(body: Stmt, turns: seq<Turn>, vs: seq<int>, cs: seq<Coro>, trace: Trace)
    requires WellLabelled(body) && EncodesAll(Targets(body), vs, cs)
    ensures (exists f: nat :: DirectRun(body, turns, cs, trace, f).Some?)
       <==> (exists g: nat :: MacroRun(body, turns, vs, trace, g).Some?)
    ensures forall f: nat, g: nat |
      DirectRun(body, turns, cs, trace, f).Some? && MacroRun(body, turns, vs, trace, g).Some? ::
      SameOutcome(Targets(body), MacroRun(body, turns, vs, trace, g), DirectRun(body, turns, cs, trace, f))
  {
    BothFinish(body, turns, vs, cs, trace);
    forall f: nat, g: nat | DirectRun(body, turns, cs, trace, f).Some? && MacroRun(body, turns, vs, trace, g).Some?
      ensures SameOutcome(Targets(body), MacroRun(body, turns, vs, trace, g), DirectRun(body, turns, cs, trace, f))
    {
      OutcomesAgree(body, turns, vs, cs, trace, f, g);
    }
  }

  /** In particular from the start: a coroutine constructed with value 0. */
  lemma FreshRunsAgree(body: Stmt, turns: seq<Turn>, f: nat, g: nat)
    requires WellLabelled(body)
    requires DirectRun(body, turns, [Fresh], [], f).Some? && MacroRun(body, turns, [0], [], g).Some?
    ensures MacroRun(body, turns, [0], [], g).value.trace == DirectRun(body, turns, [Fresh], [], f).value.trace
  {
    RunsAgree(body, turns, [0], [Fresh], []);
  }
}
