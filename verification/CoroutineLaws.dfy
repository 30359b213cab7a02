/** What whole runs of a fresh coroutine through the macros do, construct by construct. */
module CoroutineLaws {
  import opened Wrappers
  import opened CoroutineDirect
  import opened CoroutineSimulation
  import opened CoroutineRuns

  /** Re-entering a new coroutine as scheduled, after the actions `from`, finishes: all actions are then `trace`
      and the integers of the coroutine and its copies are `values`. */
  ghost predicate Leaves(body: Stmt, turns: seq<Turn>, from: Trace, values: seq<int>, trace: Trace) {
    exists fuel: nat :: MacroRun(body, turns, [0], from, fuel) == Some(Outcome(values, trace))
  }

  /** The same whatever the integers are. */
  ghost predicate Performs(body: Stmt, turns: seq<Turn>, from: Trace, trace: Trace) {
    exists values :: Leaves(body, turns, from, values, trace)
  }

  /** The coroutine is re-entered m times. */
  function Turns(o: Oracle, m: nat): (turns: seq<Turn>)
    ensures |turns| == m
  {
    if m == 0 then [] else [Turn(0, o)] + Turns(o, m - 1)
  }

  function Times(a: nat, n: nat): (trace: Trace)
    ensures |trace| == n
  {
    seq(n, _ => Did(a, false))
  }

  /** A run cannot finish in two ways. */
  lemma LeavesOnce(body: Stmt, turns: seq<Turn>, from: Trace, vs: seq<int>, t: Trace, vs': seq<int>, t': Trace)
    requires Leaves(body, turns, from, vs, t) && Leaves(body, turns, from, vs', t')
    ensures vs == vs' && t == t'
  {
    var g: nat :| MacroRun(body, turns, [0], from, g) == Some(Outcome(vs, t));
    var g': nat :| MacroRun(body, turns, [0], from, g') == Some(Outcome(vs', t'));
    if g <= g' {
      MoreFuel(body, turns, [0], from, g, g');
    } else {
      MoreFuel(body, turns, [0], from, g', g);
    }
  }

  // ---------- from the direct meaning to the macros ----------

  lemma {:induction false} StepsAdd(o: Oracle, st: State, a: nat, b: nat)
    ensures Steps(o, st, a + b) == Steps(o, Steps(o, st, a), b)
    decreases a
  {
    if a != 0 {
      StepsAdd(o, Step(o, st), a - 1, b);
    }
  }

  lemma {:induction false} EndStays(o: Oracle, st: State, n: nat)
    requires st.End?
    ensures Steps(o, st, n) == st
    decreases n
  {
    if n != 0 {
      EndStays(o, st, n - 1);
    }
  }

  /** An activation that has ended has ended for good. */
  lemma Ended(o: Oracle, st: State, n: nat, f: nat)
    requires n <= f && Steps(o, st, n).End?
    ensures Steps(o, st, f) == Steps(o, st, n)
  {
    StepsAdd(o, st, n, f - n);
    EndStays(o, Steps(o, st, n), f - n);
  }

  lemma DirectRunLeaves(body: Stmt, turns: seq<Turn>, from: Trace, f: nat, values: seq<int>)
    requires WellLabelled(body) && DirectRun(body, turns, [Fresh], from, f).Some?
    requires forall vs | EncodesAll(Targets(body), vs, DirectRun(body, turns, [Fresh], from, f).value.pool) ::
      vs == values
    ensures Leaves(body, turns, from, values, DirectRun(body, turns, [Fresh], from, f).value.trace)
  {
    var g := RunForward(body, turns, [0], [Fresh], from, f);
  }

  /** The integers that may stand for c: 0, a label of the body, a negated one, or -1. */
  predicate MayBe(body: Stmt, c: Coro, v: int) {
    match c
    case Fresh => v == 0
    case Done => v == -1
    case After(_) => v > 0 && v in Labels(body)
    case Child(_) => v < 0 && v in Labels(body)
    case Spent => v > 0 && -v in Labels(body)
  }

  lemma ValuesOf(body: Stmt, pool: seq<Coro>, vs: seq<int>)
    requires EncodesAll(Targets(body), vs, pool)
    ensures |vs| == |pool| && forall i | 0 <= i < |vs| :: MayBe(body, pool[i], vs[i])
  {
    EncodesEach(Targets(body), vs, pool);
    forall i | 0 <= i < |vs|
      ensures MayBe(body, pool[i], vs[i])
    {
      assert Encodes(Targets(body), vs[i], pool[i]);
      FindFindsLabels(vs[i], body, Stop);
      FindFindsLabels(-vs[i], body, Stop);
    }
  }

  /** One turn at a time. */
  lemma OneTurn(body: Stmt, i: nat, o: Oracle, rest: seq<Turn>, pool: seq<Coro>, trace: Trace, f: nat, n: nat, d: State)
    requires i < |pool| && n <= f && d.End? && Steps(o, Enter(body, pool[i], trace), n) == d
    ensures DirectRun(body, [Turn(i, o)] + rest, pool, trace, f) ==
      DirectRun(body, rest, pool[i := d.coro] + d.kids, d.trace, f)
  {
    Ended(o, Enter(body, pool[i], trace), n, f);
    assert ([Turn(i, o)] + rest)[1..] == rest;
  }

  lemma RunLeaves(body: Stmt, turns: seq<Turn>, from: Trace, f: nat, pool: seq<Coro>, trace: Trace, values: seq<int>)
    requires WellLabelled(body) && DirectRun(body, turns, [Fresh], from, f) == Some(Outcome(pool, trace))
    requires forall vs: seq<int> | |vs| == |pool| && (forall i | 0 <= i < |vs| :: MayBe(body, pool[i], vs[i])) ::
      vs == values
    ensures Leaves(body, turns, from, values, trace)
  {
    forall vs | EncodesAll(Targets(body), vs, pool)
      ensures vs == values
    {
      ValuesOf(body, pool, vs);
    }
    DirectRunLeaves(body, turns, from, f, values);
  }

  // ---------- loops that perform one action a turn ----------

  /** Re-entered at k, the coroutine performs a and suspends at k again while fewer than n actions are done,
      and completes after that. */
  ghost predicate Counts(o: Oracle, k: Kont, a: nat, n: nat, f: nat) {
    forall t: Trace | 1 <= |t| <= n ::
      Steps(o, Run(Skip, k, false, false, t, []), f) ==
      if |t| < n then End(After(k), t + [Did(a, false)], []) else End(Done, t, [])
  }

  lemma {:induction false} DoneStays(body: Stmt, o: Oracle, m: nat, t: Trace, f: nat)
    ensures DirectRun(body, Turns(o, m), [Done], t, f) == Some(Outcome([Done], t))
  {
    if m != 0 {
      EndStays(o, Enter(body, Done, t), f);
      assert Turns(o, m)[1..] == Turns(o, m - 1);
      assert [Done][0 := Done] + [] == [Done];
      DoneStays(body, o, m - 1, t, f);
    }
  }

  lemma {:induction false} Rounds(body: Stmt, o: Oracle, k: Kont, a: nat, n: nat, f: nat, m: nat, i: nat)
    requires Counts(o, k, a, n, f) && 1 <= i <= n
    ensures DirectRun(body, Turns(o, m), [After(k)], Times(a, i), f) ==
      Some(if m <= n - i then Outcome([After(k)], Times(a, i + m)) else Outcome([Done], Times(a, n)))
    decreases m
  {
    hide Steps;
    if m != 0 {
      var d := Steps(o, Enter(body, After(k), Times(a, i)), f);
      assert Turns(o, m)[1..] == Turns(o, m - 1);
      assert [After(k)][0 := d.coro] + [] == [d.coro];
      if i < n {
        assert Times(a, i) + [Did(a, false)] == Times(a, i + 1);
        Rounds(body, o, k, a, n, f, m - 1, i + 1);
      } else {
        DoneStays(body, o, m - 1, Times(a, n), f);
      }
    }
  }

  /** The first turn starts a loop that counts to n. */
  lemma LoopLeaves(body: Stmt, o: Oracle, line: int, k: Kont, a: nat, n: nat, f: nat, m: nat)
    requires WellLabelled(body) && Labels(body) == {line} && line > 0 && Counts(o, k, a, n, f)
    requires Steps(o, Run(body, Stop, false, false, [], []), f) ==
      if n > 0 then End(After(k), [Did(a, false)], []) else End(Done, [], [])
    ensures Leaves(body, Turns(o, m), [], [if m == 0 then 0 else if m <= n then line else -1],
                   Times(a, if m < n then m else n))
  {
    hide Steps, Labels, Distinct, WellLabelled, Counts, Leaves;
    var c := if m == 0 then Fresh else if m <= n then After(k) else Done;
    if m != 0 {
      var d := Steps(o, Enter(body, Fresh, []), f);
      OneTurn(body, 0, o, Turns(o, m - 1), [Fresh], [], f, f, d);
      assert [Fresh][0 := d.coro] + [] == [d.coro];
      if n > 0 {
        assert Times(a, 1) == [Did(a, false)];
        Rounds(body, o, k, a, n, f, m - 1, 1);
      } else {
        DoneStays(body, o, m - 1, [], f);
      }
    }
    RunLeaves(body, Turns(o, m), [], f, [c], Times(a, if m < n then m else n),
              [if m == 0 then 0 else if m <= n then line else -1]);
  }

  /** Eight steps, one by one. */
  lemma Eight(o: Oracle, st: State)
    ensures var st' := Step(o, Step(o, Step(o, Step(o, st))));
      Steps(o, st, 8) == Step(o, Step(o, Step(o, Step(o, st'))))
  {
    var st' := Step(o, Step(o, Step(o, Step(o, st))));
    assert Steps(o, st, 4) == st';
    assert Steps(o, st', 4) == Step(o, Step(o, Step(o, Step(o, st'))));
    StepsAdd(o, st, 4, 4);
  }

  /** An activation that starts at s and k, after t: it performs a and suspends at k', or completes. */
  predicate Goes(o: Oracle, s: Stmt, k: Kont, t: Trace, on: bool, a: nat, k': Kont) {
    Steps(o, Run(s, k, false, false, t, []), 8) ==
    if on then End(After(k'), t + [Did(a, false)], []) else End(Done, t, [])
  }

  /** A body that yields at its only line, and how often it can: m turns perform a m times, but at most n times,
      and one turn more completes the coroutine. */
  ghost predicate YieldsTimes(body: Stmt, o: Oracle, line: int, a: nat, n: nat) {
    forall m: nat ::
      Leaves(body, Turns(o, m), [], [if m == 0 then 0 else if m <= n then line else -1],
             Times(a, if m < n then m else n))
  }

  lemma CountingLoop(body: Stmt, o: Oracle, line: int, k: Kont, a: nat, n: nat)
    requires WellLabelled(body) && Labels(body) == {line} && line > 0
    requires forall t: Trace | 1 <= |t| <= n :: Goes(o, Skip, k, t, |t| < n, a, k)
    requires Goes(o, body, Stop, [], n > 0, a, k)
    ensures YieldsTimes(body, o, line, a, n)
  {
    hide Steps;
    forall m: nat
      ensures Leaves(body, Turns(o, m), [], [if m == 0 then 0 else if m <= n then line else -1],
                     Times(a, if m < n then m else n))
    {
      assert forall t: Trace | 1 <= |t| <= n :: Goes(o, Skip, k, t, |t| < n, a, k);
      LoopLeaves(body, o, line, k, a, n, 8, m);
    }
  }

  /** No yield or fork in it. */
  predicate Bare(s: Stmt) {
    match s
    case Seq(s1, s2) => Bare(s1) && Bare(s2)
    case If(_, s1, s2) => Bare(s1) && Bare(s2)
    case While(_, b) => Bare(b)
    case DoWhile(b, _) => Bare(b)
    case _ => !s.Yield? && !s.YieldReturn? && !s.YieldBreak? && !s.Fork?
  }

  lemma {:induction false} BareHasNoLabels(s: Stmt)
    requires Bare(s)
    ensures Distinct(s) && Labels(s) == {}
  {
    match s
    case Seq(s1, s2) => BareHasNoLabels(s1); BareHasNoLabels(s2);
    case If(_, s1, s2) => BareHasNoLabels(s1); BareHasNoLabels(s2);
    case While(_, b) => BareHasNoLabels(b);
    case DoWhile(b, _) => BareHasNoLabels(b);
    case _ =>
  }

  lemma OneLabel(s1: Stmt, s2: Stmt, line: int)
    requires line > 0
    requires (s1.Yield? && s1.line == line && Bare(s2)) || (Bare(s1) && s2.Yield? && s2.line == line)
    ensures forall c :: WellLabelled(While(c, Seq(s1, s2))) && Labels(While(c, Seq(s1, s2))) == {line}
    ensures forall c :: WellLabelled(DoWhile(Seq(s1, s2), c)) && Labels(DoWhile(Seq(s1, s2), c)) == {line}
  {
    var (y, bare) := if s1.Yield? then (s1, s2) else (s2, s1);
    BareHasNoLabels(bare);
    assert Labels(y) == {line} && Distinct(y);
    assert Distinct(Seq(s1, s2)) && Labels(Seq(s1, s2)) == {line} + {} == {line};
  }

  lemma YieldAlone(line: int, a: nat, c: nat)
    requires line > 0
    ensures WellLabelled(While(c, Yield(line, a))) && Labels(While(c, Yield(line, a))) == {line}
    ensures WellLabelled(DoWhile(Yield(line, a), c)) && Labels(DoWhile(Yield(line, a), c)) == {line}
  {
    assert Labels(Yield(line, a)) == {line} && Distinct(Yield(line, a));
  }

  lemma WhileTurn(o: Oracle, c: nat, y: Stmt, t: Trace)
    requires y.Yield?
    ensures var k := KWhile(c, y, Stop);
      && Goes(o, Skip, k, t, o(c, t, false), y.action, k)
      && Goes(o, While(c, y), Stop, t, o(c, t, false), y.action, k)
  {
    Eight(o, Run(Skip, KWhile(c, y, Stop), false, false, t, []));
    Eight(o, Run(While(c, y), Stop, false, false, t, []));
  }

  /** while (c) yield a; */
  lemma WhileRuns(o: Oracle, c: nat, line: int, a: nat, n: nat)
    requires line > 0 && forall t :: o(c, t, false) <==> |t| < n
    ensures YieldsTimes(While(c, Yield(line, a)), o, line, a, n)
  {
    hide Steps, Labels, Distinct, WellLabelled, Goes;
    var y := Yield(line, a);
    forall t: Trace
      ensures Goes(o, Skip, KWhile(c, y, Stop), t, |t| < n, a, KWhile(c, y, Stop))
    {
      WhileTurn(o, c, y, t);
    }
    WhileTurn(o, c, y, []);
    YieldAlone(line, a, c);
    CountingLoop(While(c, y), o, line, KWhile(c, y, Stop), a, n);
  }

  lemma DoWhileTurn(o: Oracle, c: nat, y: Stmt, t: Trace)
    requires y.Yield?
    ensures var k := KDo(y, c, Stop);
      && Goes(o, Skip, k, t, o(c, t, false), y.action, k)
      && Goes(o, DoWhile(y, c), Stop, t, true, y.action, k)
  {
    Eight(o, Run(Skip, KDo(y, c, Stop), false, false, t, []));
    Eight(o, Run(DoWhile(y, c), Stop, false, false, t, []));
  }

  /** do yield a; while (c); performs a once before c is tested. */
  lemma DoWhileRuns(o: Oracle, c: nat, line: int, a: nat, n: nat)
    requires line > 0 && forall t :: o(c, t, false) <==> |t| < n
    ensures YieldsTimes(DoWhile(Yield(line, a), c), o, line, a, if n == 0 then 1 else n)
  {
    hide Steps, Labels, Distinct, WellLabelled, Goes;
    var y, times := Yield(line, a), if n == 0 then 1 else n;
    forall t: Trace | 1 <= |t| <= times
      ensures Goes(o, Skip, KDo(y, c, Stop), t, |t| < times, a, KDo(y, c, Stop))
    {
      DoWhileTurn(o, c, y, t);
    }
    DoWhileTurn(o, c, y, []);
    YieldAlone(line, a, c);
    CountingLoop(DoWhile(y, c), o, line, KDo(y, c, Stop), a, times);
  }

  lemma BreakTurn(o: Oracle, c: nat, d: nat, y: Stmt, t: Trace)
    requires y.Yield?
    ensures var b := Seq(If(d, Break, Skip), y);
      var k, on := KWhile(c, b, Stop), o(c, t, false) && !o(d, t, false);
      Goes(o, Skip, k, t, on, y.action, k) && Goes(o, While(c, b), Stop, t, on, y.action, k)
  {
    var b := Seq(If(d, Break, Skip), y);
    assert BreakTo(KSeq(y, KWhile(c, b, Stop))) == Some(Stop);
    Eight(o, Run(Skip, KWhile(c, b, Stop), false, false, t, []));
    Eight(o, Run(While(c, b), Stop, false, false, t, []));
  }

  /** while (c) { if (d) break; yield a; } */
  lemma BreakLeavesLoop(o: Oracle, c: nat, d: nat, line: int, a: nat, n: nat)
    requires line > 0 && forall t :: o(c, t, false) && !o(d, t, false) <==> |t| < n
    ensures YieldsTimes(While(c, Seq(If(d, Break, Skip), Yield(line, a))), o, line, a, n)
  {
    hide Steps, Labels, Distinct, WellLabelled, Goes;
    var y := Yield(line, a);
    var b := Seq(If(d, Break, Skip), y);
    forall t: Trace
      ensures Goes(o, Skip, KWhile(c, b, Stop), t, |t| < n, a, KWhile(c, b, Stop))
    {
      BreakTurn(o, c, d, y, t);
    }
    BreakTurn(o, c, d, y, []);
    OneLabel(If(d, Break, Skip), y, line);
    CountingLoop(While(c, b), o, line, KWhile(c, b, Stop), a, n);
  }

  lemma InnerBreakTurn(o: Oracle, c: nat, d: nat, y: Stmt, t: Trace)
    requires y.Yield?
    ensures var b := Seq(While(d, Break), y);
      var k := KWhile(c, b, Stop);
      Goes(o, Skip, k, t, o(c, t, false), y.action, k) && Goes(o, While(c, b), Stop, t, o(c, t, false), y.action, k)
  {
    var b := Seq(While(d, Break), y);
    var k := KWhile(c, b, Stop);
    var st := Run(While(c, b), Stop, false, false, t, []);
    Eight(o, st);
    Eight(o, Run(Skip, k, false, false, t, []));
    if o(c, t, false) {
      assert Step(o, Step(o, st)) == Run(While(d, Break), KSeq(y, k), false, false, t, []);
      if o(d, t, false) {
        assert Step(o, Step(o, Step(o, Step(o, st)))) == Run(Skip, KSeq(y, k), false, false, t, []);
      }
    }
  }

  /** while (c) { while (d) break; yield a; }: only the inner loop is left. */
  lemma BreakLeavesInnerLoop(o: Oracle, c: nat, d: nat, line: int, a: nat, n: nat)
    requires line > 0 && forall t :: o(c, t, false) <==> |t| < n
    ensures YieldsTimes(While(c, Seq(While(d, Break), Yield(line, a))), o, line, a, n)
  {
    hide Steps, Labels, Distinct, WellLabelled, Goes;
    var y := Yield(line, a);
    var b := Seq(While(d, Break), y);
    forall t: Trace
      ensures Goes(o, Skip, KWhile(c, b, Stop), t, |t| < n, a, KWhile(c, b, Stop))
    {
      InnerBreakTurn(o, c, d, y, t);
    }
    InnerBreakTurn(o, c, d, y, []);
    OneLabel(While(d, Break), y, line);
    CountingLoop(While(c, b), o, line, KWhile(c, b, Stop), a, n);
  }

  lemma ContinueTurn(o: Oracle, c: nat, y: Stmt, s: Stmt, t: Trace)
    requires y.Yield?
    ensures var b := Seq(y, Seq(Continue, s));
      var k := KSeq(Seq(Continue, s), KWhile(c, b, Stop));
      Goes(o, Skip, k, t, o(c, t, false), y.action, k) && Goes(o, While(c, b), Stop, t, o(c, t, false), y.action, k)
  {
    var b := Seq(y, Seq(Continue, s));
    assert ContinueTo(KSeq(s, KWhile(c, b, Stop))) == Some(KWhile(c, b, Stop));
    Eight(o, Run(Skip, KSeq(Seq(Continue, s), KWhile(c, b, Stop)), false, false, t, []));
    Eight(o, Run(While(c, b), Stop, false, false, t, []));
  }

  lemma ContinueDoTurn(o: Oracle, c: nat, y: Stmt, s: Stmt, t: Trace)
    requires y.Yield?
    ensures var b := Seq(y, Seq(Continue, s));
      var k := KSeq(Seq(Continue, s), KDo(b, c, Stop));
      Goes(o, Skip, k, t, o(c, t, false), y.action, k) && Goes(o, DoWhile(b, c), Stop, t, true, y.action, k)
  {
    var b := Seq(y, Seq(Continue, s));
    assert ContinueTo(KSeq(s, KDo(b, c, Stop))) == Some(KDo(b, c, Stop));
    Eight(o, Run(Skip, KSeq(Seq(Continue, s), KDo(b, c, Stop)), false, false, t, []));
    Eight(o, Run(DoWhile(b, c), Stop, false, false, t, []));
  }

  /** while (c) { yield a; continue; s } does what while (c) yield a; does. */
  lemma ContinueTestsAgain(o: Oracle, c: nat, line: int, a: nat, s: Stmt, n: nat)
    requires line > 0 && Bare(s) && forall t :: o(c, t, false) <==> |t| < n
    ensures YieldsTimes(While(c, Seq(Yield(line, a), Seq(Continue, s))), o, line, a, n)
  {
    hide Steps, Labels, Distinct, WellLabelled, Goes;
    var y := Yield(line, a);
    var b := Seq(y, Seq(Continue, s));
    var k := KSeq(Seq(Continue, s), KWhile(c, b, Stop));
    forall t: Trace
      ensures Goes(o, Skip, k, t, |t| < n, a, k)
    {
      ContinueTurn(o, c, y, s, t);
    }
    ContinueTurn(o, c, y, s, []);
    OneLabel(y, Seq(Continue, s), line);
    CountingLoop(While(c, b), o, line, k, a, n);
  }

  /** do { yield a; continue; s } while (c); does what do yield a; while (c); does. */
  lemma ContinueTestsDoWhile(o: Oracle, c: nat, line: int, a: nat, s: Stmt, n: nat)
    requires line > 0 && Bare(s) && forall t :: o(c, t, false) <==> |t| < n
    ensures YieldsTimes(DoWhile(Seq(Yield(line, a), Seq(Continue, s)), c), o, line, a, if n == 0 then 1 else n)
  {
    hide Steps, Labels, Distinct, WellLabelled, Goes;
    var y, times := Yield(line, a), if n == 0 then 1 else n;
    var b := Seq(y, Seq(Continue, s));
    var k := KSeq(Seq(Continue, s), KDo(b, c, Stop));
    forall t: Trace | 1 <= |t| <= times
      ensures Goes(o, Skip, k, t, |t| < times, a, k)
    {
      ContinueDoTurn(o, c, y, s, t);
    }
    ContinueDoTurn(o, c, y, s, []);
    OneLabel(y, Seq(Continue, s), line);
    CountingLoop(DoWhile(b, c), o, line, k, a, times);
  }

  // ---------- statements that lead to others ----------

  /** Entered after `from`, the first body arrives where the second starts after `from'`. */
  predicate LeadsTo(o: Oracle, s: Stmt, from: Trace, s': Stmt, from': Trace, n: nat) {
    Steps(o, Run(s, Stop, false, false, from, []), n) == Run(s', Stop, false, false, from', [])
  }

  lemma {:induction false} NeverNewAgain(o: Oracle, st: State, n: nat)
    requires Fresh !in st.kids && (st.End? ==> !st.coro.Fresh?)
    ensures var st' := Steps(o, st, n); Fresh !in st'.kids && (st'.End? ==> !st'.coro.Fresh?)
    decreases n
  {
    if n != 0 {
      NeverNewAgain(o, Step(o, st), n - 1);
    }
  }

  /** Coroutines that have started hold what they have yet to run; more fuel changes nothing. */
  lemma {:induction false} StartedRuns(s: Stmt, s': Stmt, turns: seq<Turn>, pool: seq<Coro>, trace: Trace,
                                       f: nat, g: nat)
    requires Fresh !in pool && f <= g && DirectRun(s, turns, pool, trace, f).Some?
    ensures DirectRun(s', turns, pool, trace, g) == DirectRun(s, turns, pool, trace, f)
    decreases |turns|
  {
    if turns == [] {
    } else if turns[0].who >= |pool| {
      StartedRuns(s, s', turns[1..], pool, trace, f, g);
    } else {
      var who, o := turns[0].who, turns[0].o;
      assert Enter(s, pool[who], trace) == Enter(s', pool[who], trace);
      var d := Steps(o, Enter(s, pool[who], trace), f);
      Ended(o, Enter(s, pool[who], trace), f, g);
      NeverNewAgain(o, Enter(s, pool[who], trace), f);
      StartedRuns(s, s', turns[1..], pool[who := d.coro] + d.kids, d.trace, f, g);
    }
  }

  /** One that leads to the other finishes when it does, with the same actions. */
  lemma RunsLikewise(s: Stmt, from: Trace, s': Stmt, from': Trace, n: nat, turns: seq<Turn>, f: nat, g: nat)
    requires turns != [] && turns[0].who == 0 && LeadsTo(turns[0].o, s, from, s', from', n)
    requires f + n <= g
    ensures DirectRun(s', turns, [Fresh], from', f).Some? ==>
      DirectRun(s, turns, [Fresh], from, g) == DirectRun(s', turns, [Fresh], from', f)
    ensures DirectRun(s, turns, [Fresh], from, f).Some? ==>
      DirectRun(s', turns, [Fresh], from', f) == DirectRun(s, turns, [Fresh], from, f)
  {
    var o := turns[0].o;
    var st, st' := Enter(s, Fresh, from), Enter(s', Fresh, from');
    if DirectRun(s', turns, [Fresh], from', f).Some? {
      var d := Steps(o, st', f);
      StepsAdd(o, st, n, f);
      Ended(o, st, n + f, g);
      NeverNewAgain(o, st', f);
      assert [Fresh][0 := d.coro] == [d.coro];
      StartedRuns(s', s, turns[1..], [d.coro] + d.kids, d.trace, f, g);
    }
    if DirectRun(s, turns, [Fresh], from, f).Some? {
      var d := Steps(o, st, f);
      Ended(o, st, f, n + f);
      StepsAdd(o, st, n, f);
      NeverNewAgain(o, st, f);
      assert [Fresh][0 := d.coro] == [d.coro];
      StartedRuns(s, s', turns[1..], [d.coro] + d.kids, d.trace, f, f);
    }
  }

  lemma PerformsDirectly(s: Stmt, turns: seq<Turn>, from: Trace, trace: Trace)
    requires WellLabelled(s)
    ensures Performs(s, turns, from, trace) <==>
      exists f: nat :: DirectRun(s, turns, [Fresh], from, f).Some? &&
                       DirectRun(s, turns, [Fresh], from, f).value.trace == trace
  {
    if f: nat :| DirectRun(s, turns, [Fresh], from, f).Some? &&
                 DirectRun(s, turns, [Fresh], from, f).value.trace == trace {
      var g := RunForward(s, turns, [0], [Fresh], from, f);
      var r := MacroRun(s, turns, [0], from, g).value;
      assert MacroRun(s, turns, [0], from, g) == Some(Outcome(r.pool, trace));
      assert Leaves(s, turns, from, r.pool, trace);
    }
    if values :| Leaves(s, turns, from, values, trace) {
      var g: nat :| MacroRun(s, turns, [0], from, g) == Some(Outcome(values, trace));
      RunBackward(s, turns, [0], [Fresh], from, g);
    }
  }

  lemma PerformsLikewise(s: Stmt, from: Trace, s': Stmt, from': Trace, n: nat, turns: seq<Turn>, trace: Trace)
    requires WellLabelled(s) && WellLabelled(s')
    requires turns != [] && turns[0].who == 0 && LeadsTo(turns[0].o, s, from, s', from', n)
    ensures Performs(s, turns, from, trace) <==> Performs(s', turns, from', trace)
  {
    hide Leaves, Performs, LeadsTo, WellLabelled, Steps, DirectRun;
    PerformsDirectly(s, turns, from, trace);
    PerformsDirectly(s', turns, from', trace);
    if f: nat :| DirectRun(s, turns, [Fresh], from, f).Some? &&
                 DirectRun(s, turns, [Fresh], from, f).value.trace == trace {
      RunsLikewise(s, from, s', from', n, turns, f, f + n);
    }
    if f: nat :| DirectRun(s', turns, [Fresh], from', f).Some? &&
                 DirectRun(s', turns, [Fresh], from', f).value.trace == trace {
      RunsLikewise(s, from, s', from', n, turns, f, f + n);
      assert DirectRun(s, turns, [Fresh], from, f + n).Some?;
    }
  }

  /** if (c) s1 else s2 does what s1 does when c holds at the start, and what s2 does otherwise. */
  lemma IfChooses(c: nat, s1: Stmt, s2: Stmt, turns: seq<Turn>, from: Trace, trace: Trace)
    requires WellLabelled(If(c, s1, s2)) && turns != [] && turns[0].who == 0
    ensures Performs(If(c, s1, s2), turns, from, trace) <==>
      Performs(if turns[0].o(c, from, false) then s1 else s2, turns, from, trace)
  {
    var s := if turns[0].o(c, from, false) then s1 else s2;
    assert WellLabelled(s) by {
      assert Labels(s1) <= Labels(If(c, s1, s2)) && Labels(s2) <= Labels(If(c, s1, s2));
    }
    var st := Run(If(c, s1, s2), Stop, false, false, from, []);
    assert Steps(turns[0].o, st, 1) == Run(s, Stop, false, false, from, []);
    PerformsLikewise(If(c, s1, s2), from, s, from, 1, turns, trace);
  }

  /** { a; s } does what s does after a. */
  lemma SequencePerforms(a: nat, s: Stmt, turns: seq<Turn>, from: Trace, trace: Trace)
    requires WellLabelled(s) && turns != [] && turns[0].who == 0
    ensures Performs(Seq(Act(a), s), turns, from, trace) <==> Performs(s, turns, from + [Did(a, false)], trace)
  {
    var o, st := turns[0].o, Run(Seq(Act(a), s), Stop, false, false, from, []);
    assert Labels(Seq(Act(a), s)) == Labels(s) by {
      assert Labels(Act(a)) == {};
    }
    assert Distinct(Act(a));
    Eight(o, st);
    assert Steps(o, st, 3) == Run(s, Stop, false, false, from + [Did(a, false)], []);
    PerformsLikewise(Seq(Act(a), s), from, s, from + [Did(a, false)], 3, turns, trace);
  }

  /** { while (c) break; s } does what s does. */
  lemma BreakGoesOnBehindLoop(c: nat, s: Stmt, turns: seq<Turn>, from: Trace, trace: Trace)
    requires WellLabelled(s) && turns != [] && turns[0].who == 0
    ensures Performs(Seq(While(c, Break), s), turns, from, trace) <==> Performs(s, turns, from, trace)
  {
    var o, st := turns[0].o, Run(Seq(While(c, Break), s), Stop, false, false, from, []);
    BareHasNoLabels(While(c, Break));
    assert Labels(Seq(While(c, Break), s)) == Labels(s);
    Eight(o, st);
    if o(c, from, false) {
      assert Step(o, Step(o, st)) == Run(Break, KWhile(c, Break, KSeq(s, Stop)), false, false, from, []);
      assert Steps(o, st, 4) == Run(s, Stop, false, false, from, []);
      PerformsLikewise(Seq(While(c, Break), s), from, s, from, 4, turns, trace);
    } else {
      assert Steps(o, st, 3) == Run(s, Stop, false, false, from, []);
      PerformsLikewise(Seq(While(c, Break), s), from, s, from, 3, turns, trace);
    }
  }

  // ---------- the ends of an activation ----------

  /** { while (c) return; s } and { while (c) yield break; s } complete at once when c holds. */
  lemma ReturnLeavesBody(o: Oracle, c: nat, s: Stmt, line: int, from: Trace, r: Stmt)
    requires o(c, from, false) && WellLabelled(Seq(While(c, r), s)) && (r == Return || r == YieldBreak(line))
    ensures Leaves(Seq(While(c, r), s), [Turn(0, o)], from, [-1], from)
  {
    var body := Seq(While(c, r), s);
    var st := Enter(body, Fresh, from);
    assert Step(o, Step(o, st)) == Run(r, KWhile(c, r, KSeq(s, Stop)), false, false, from, []);
    assert Steps(o, st, 3) == End(Done, from, []);
    assert [Fresh][0 := Done] + [] == [Done];
    assert DirectRun(body, [Turn(0, o)], [Fresh], from, 3) == Some(Outcome([Done], from));
    forall vs | EncodesAll(Targets(body), vs, [Done])
      ensures vs == [-1]
    {
      ValuesOf(body, [Done], vs);
    }
    DirectRunLeaves(body, [Turn(0, o)], from, 3, [-1]);
  }

  lemma YieldTurns(o: Oracle, line: int, a: nat, b: nat, y: Stmt)
    requires y == Yield(line, a) || y == YieldReturn(line, a)
    ensures var body, k, t := Seq(y, Act(b)), KSeq(Act(b), Stop), [Did(a, false)];
      && Steps(o, Enter(body, Fresh, []), 2) == End(After(k), t, [])
      && Steps(o, Enter(body, After(k), t), 4) == End(Done, t + [Did(b, false)], [])
      && (line > 0 ==> WellLabelled(body) && Labels(body) == {line})
  {
    assert Labels(Act(b)) == {} && Labels(y) == {line} && (line > 0 ==> Distinct(y)) && Distinct(Act(b));
  }

  /** { yield a; b; }, with or without return: a is performed and the label kept, then b and the coroutine is
      complete. */
  lemma YieldResumesBehind(o: Oracle, line: int, a: nat, b: nat, y: Stmt)
    requires line > 0 && (y == Yield(line, a) || y == YieldReturn(line, a))
    ensures Leaves(Seq(y, Act(b)), [Turn(0, o)], [], [line], [Did(a, false)])
    ensures Leaves(Seq(y, Act(b)), [Turn(0, o), Turn(0, o)], [], [-1], [Did(a, false), Did(b, false)])
  {
    hide Steps, Labels, Distinct, WellLabelled;
    var body, k, t := Seq(y, Act(b)), KSeq(Act(b), Stop), [Did(a, false)];
    YieldTurns(o, line, a, b, y);
    OneTurn(body, 0, o, [], [Fresh], [], 4, 2, End(After(k), t, []));
    assert [Fresh][0 := After(k)] + [] == [After(k)] && [After(k)][0 := Done] + [] == [Done];
    RunLeaves(body, [Turn(0, o)], [], 4, [After(k)], t, [line]);
    OneTurn(body, 0, o, [Turn(0, o)], [Fresh], [], 4, 2, End(After(k), t, []));
    OneTurn(body, 0, o, [], [After(k)], t, 4, 4, End(Done, t + [Did(b, false)], []));
    assert [Turn(0, o)] + [Turn(0, o)] == [Turn(0, o), Turn(0, o)];
    assert t + [Did(b, false)] == [Did(a, false), Did(b, false)];
    RunLeaves(body, [Turn(0, o), Turn(0, o)], [], 4, [Done], [Did(a, false), Did(b, false)], [-1]);
  }

  lemma ForkTurns(o: Oracle, n: int, a: nat, b: nat, line: int, d: nat)
    ensures var rest := Seq(Act(b), Yield(line, d));
      var t := [Did(a, true), Did(b, false), Did(d, false)];
      && Steps(o, Enter(Seq(Fork(n, a), rest), Fresh, []), 8) == End(After(Stop), t, [Child(KSeq(rest, Stop))])
      && Steps(o, Enter(Seq(Fork(n, a), rest), Child(KSeq(rest, Stop)), t), 8) ==
           End(After(Stop), t + [Did(b, true), Did(d, false)], [])
  {
    var rest, t := Seq(Act(b), Yield(line, d)), [Did(a, true), Did(b, false), Did(d, false)];
    var body, k := Seq(Fork(n, a), rest), KSeq(rest, Stop);
    Eight(o, Enter(body, Fresh, []));
    Eight(o, Enter(body, Child(k), t));
    assert t + [Did(b, true)] + [Did(d, false)] == t + [Did(b, true), Did(d, false)];
  }

  lemma ForkLabels(n: int, a: nat, b: nat, line: int, d: nat)
    requires n > 1 && line > 0 && n != line
    ensures var body := Seq(Fork(n, a), Seq(Act(b), Yield(line, d)));
      WellLabelled(body) && Labels(body) == {-n, line}
  {
    var rest := Seq(Act(b), Yield(line, d));
    assert Labels(Act(b)) == {} && Labels(Yield(line, d)) == {line} && Distinct(Yield(line, d)) && Distinct(Act(b));
    assert Distinct(rest) && Labels(rest) == {line};
    assert Labels(Fork(n, a)) == {-n} && Distinct(Fork(n, a));
  }

  /** { fork a; b; yield d; }: parent and copy both go on behind the fork. */
  lemma ForkRunsBoth(o: Oracle, n: int, a: nat, b: nat, line: int, d: nat)
    requires n > 1 && line > 0 && n != line
    ensures Leaves(Seq(Fork(n, a), Seq(Act(b), Yield(line, d))), [Turn(0, o)], [], [line, -n],
                   [Did(a, true), Did(b, false), Did(d, false)])
    ensures Leaves(Seq(Fork(n, a), Seq(Act(b), Yield(line, d))), [Turn(0, o), Turn(1, o)], [], [line, line],
                   [Did(a, true), Did(b, false), Did(d, false), Did(b, true), Did(d, false)])
  {
    hide Steps, Labels, Distinct, WellLabelled;
    var rest := Seq(Act(b), Yield(line, d));
    var body, child := Seq(Fork(n, a), rest), Child(KSeq(rest, Stop));
    var t := [Did(a, true), Did(b, false), Did(d, false)];
    var t' := t + [Did(b, true), Did(d, false)];
    ForkLabels(n, a, b, line, d);
    ForkTurns(o, n, a, b, line, d);
    var pool, pool' := [After(Stop), child], [After(Stop), After(Stop)];
    assert [Fresh][0 := After(Stop)] + [child] == pool && pool[1 := After(Stop)] + [] == pool';
    OneTurn(body, 0, o, [], [Fresh], [], 8, 8, End(After(Stop), t, [child]));
    RunLeaves(body, [Turn(0, o)], [], 8, pool, t, [line, -n]);
    OneTurn(body, 0, o, [Turn(1, o)], [Fresh], [], 8, 8, End(After(Stop), t, [child]));
    OneTurn(body, 1, o, [], pool, t, 8, 8, End(After(Stop), t', []));
    assert [Turn(0, o)] + [Turn(1, o)] == [Turn(0, o), Turn(1, o)];
    assert t' == [Did(a, true), Did(b, false), Did(d, false), Did(b, true), Did(d, false)];
    RunLeaves(body, [Turn(0, o), Turn(1, o)], [], 8, pool', t', [line, line]);
  }
}
