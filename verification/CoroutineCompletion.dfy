/** When `asio::coroutine` reports completion. */
module CoroutineCompletion {
  import opened CoroutineDirect
  import opened CoroutineMacros
  import opened CoroutineSimulation
  import opened CoroutineRuns
  import M = SwitchMachine

  lemma {:induction false} ForkedMeansCopied(o: Oracle, d: State, n: nat)
    requires d.Run? ==> (d.forked <==> d.kids != [])
    ensures var d' := Steps(o, d, n); d'.Run? ==> (d'.forked <==> d'.kids != [])
    decreases n
  {
    if n != 0 {
      ForkedMeansCopied(o, Step(o, d), n - 1);
    }
  }

  /** Control has reached the end of the body, or a return in it, without a yield. */
  predicate AtExit(d: State) {
    d.Run? && (d.s.Return? || (d.s.Skip? && d.k.Stop?) || (d.s.Break? && BreakTo(d.k).None?))
  }

  /** An activation that leaves the body without a yield ends complete if and only if
      it did not fork.  (The documentation promises termination in every case.) */
  lemma ExitCompletes(body: Stmt, o: Oracle, c: Coro, v: int, trace: Trace, n: nat) returns (g: nat)
    requires WellLabelled(body) && Encodes(Targets(body), v, c)
    requires AtExit(Steps(o, Enter(body, c, trace), n))
    ensures var d := Steps(o, Enter(body, c, trace), n);
      var m := M.Steps(Program(body), o, Activation(body, v, trace), g);
      && M.Halted(m) && m.trace == d.trace
      && (M.Destroyed(m) == -1 <==> d.kids == [])
      && (M.Destroyed(m) != -1 ==> M.Destroyed(m) > 1 && -M.Destroyed(m) in Labels(body))
  {
    var d := Steps(o, Enter(body, c, trace), n);
    hide Related, Labels, Find, Distinct;
    ForkedMeansCopied(o, Enter(body, c, trace), n);
    DirectStepsAdd(o, Enter(body, c, trace), n, 1);
    assert Steps(o, d, 1) == Step(o, d);
    StepAtExit(o, d);
    g := ActivationForward(body, o, c, v, trace, n + 1);
    var m := M.Steps(Program(body), o, Activation(body, v, trace), g);
    AfterExit(Targets(body), d, m);
    FindFindsLabels(-M.Destroyed(m), body, Stop);
  }

  lemma StepAtExit(o: Oracle, d: State)
    requires AtExit(d)
    ensures Step(o, d) == Leave(d)
  {
  }

  lemma AfterExit(table: Table, d: State, m: M.Machine)
    requires d.Run? && (d.forked <==> d.kids != []) && Related(table, Leave(d), m)
    ensures M.Halted(m) && m.trace == d.trace
    ensures M.Destroyed(m) == -1 <==> d.kids == []
    ensures M.Destroyed(m) != -1 ==> M.Destroyed(m) > 1 && table(-M.Destroyed(m)).Some?
  {
  }

  /** A completed coroutine stays completed, and the parent of a fork that has left its
      body needs one further activation; neither performs an action. */
  lemma NothingLeftToDo(body: Stmt, o: Oracle, v: int, trace: Trace) returns (g: nat)
    requires WellLabelled(body)
    requires v == -1 || (v > 1 && -v in Labels(body))
    ensures var m := M.Steps(Program(body), o, Activation(body, v, trace), g);
      M.Halted(m) && m.trace == trace && m.kids == [] && M.Destroyed(m) == -1
  {
    var c := if v == -1 then Done else Spent;
    FindFindsLabels(-v, body, Stop);
    g := ActivationForward(body, o, c, v, trace, 0);
  }

  /** A body on which the documented promise fails: `reenter (c) { fork f(); }`. */
  lemma ForkThenEndIsNotComplete(o: Oracle) returns (g: nat)
    ensures var m := M.Steps(Program(Fork(2, 7)), o, Activation(Fork(2, 7), 0, []), g);
      M.Halted(m) && m.trace == [Did(7, true)] && M.Destroyed(m) == 2
  {
    var body := Fork(2, 7);
    var d := Enter(body, Fresh, []);
    assert Steps(o, d, 1) == Step(o, d);
    assert Labels(body) == {-2};
    assert Steps(o, d, 1).trace == [Did(7, true)];
    g := ExitCompletes(body, o, Fresh, 0, [], 1);
  }
}
