/** The integer of `asio::coroutine` and the macro expansion implement the direct meaning. */
module CoroutineSimulation {
  import opened Wrappers
  import opened CoroutineDirect
  import opened CoroutineMacros
  import M = SwitchMachine

  // ---------- labels ----------

  /** The case values a body contributes to the switch of `reenter`: n for a yield, -n for a fork. */
  function Labels(s: Stmt): set<int> {
    match s
    case Seq(s1, s2) => Labels(s1) + Labels(s2)
    case If(_, s1, s2) => Labels(s1) + Labels(s2)
    case While(_, b) => Labels(b)
    case DoWhile(b, _) => Labels(b)
    case Yield(n, _) => {n}
    case YieldReturn(n, _) => {n}
    case YieldBreak(n) => {n}
    case Fork(n, _) => {-n}
    case _ => {}
  }

  /** No two case labels of the switch coincide (C++ would reject the body), and
      line numbers are positive. */
  predicate Distinct(s: Stmt) {
    match s
    case Seq(s1, s2) => Distinct(s1) && Distinct(s2) && Labels(s1) !! Labels(s2)
    case If(_, s1, s2) => Distinct(s1) && Distinct(s2) && Labels(s1) !! Labels(s2)
    case While(_, b) => Distinct(b)
    case DoWhile(b, _) => Distinct(b)
    case Yield(n, _) => n > 0
    case YieldReturn(n, _) => n > 0
    case YieldBreak(n) => n > 0
    case Fork(n, _) => n > 1
    case _ => true
  }

  /** A body that compiles, and in which no fork shares its line with a yield. */
  predicate WellLabelled(body: Stmt) {
    Distinct(body) && forall n | n in Labels(body) :: -n !in Labels(body)
  }

  /** The code after label n of `s`, when `k` follows `s`. */
  function Find(n: int, s: Stmt, k: Kont): Option<Kont> {
    match s
    case Seq(s1, s2) => M.OrElse(Find(n, s1, KSeq(s2, k)), Find(n, s2, k))
    case If(_, s1, s2) => M.OrElse(Find(n, s1, k), Find(n, s2, k))
    case While(c, b) => Find(n, b, KWhile(c, b, k))
    case DoWhile(b, c) => Find(n, b, KDo(b, c, k))
    case Yield(m, _) => if n == m then Some(k) else None
    case YieldReturn(m, _) => if n == m then Some(k) else None
    case YieldBreak(m) => if n == m then Some(k) else None
    case Fork(m, _) => if n == -m then Some(k) else None
    case _ => None
  }

  lemma {:induction false} FindFindsLabels(n: int, s: Stmt, k: Kont)
    ensures Find(n, s, k).Some? <==> n in Labels(s)
  {
    match s
    case Seq(s1, s2) => FindFindsLabels(n, s1, KSeq(s2, k)); FindFindsLabels(n, s2, k);
    case If(_, s1, s2) => FindFindsLabels(n, s1, k); FindFindsLabels(n, s2, k);
    case While(c, b) => FindFindsLabels(n, b, KWhile(c, b, k));
    case DoWhile(b, c) => FindFindsLabels(n, b, KDo(b, c, k));
    case _ =>
  }

  lemma {:induction false} LabelsInRange(s: Stmt)
    requires Distinct(s)
    ensures 0 !in Labels(s) && -1 !in Labels(s)
  {
    match s
    case Seq(s1, s2) => LabelsInRange(s1); LabelsInRange(s2);
    case If(_, s1, s2) => LabelsInRange(s1); LabelsInRange(s2);
    case While(_, b) => LabelsInRange(b);
    case DoWhile(b, _) => LabelsInRange(b);
    case _ =>
  }

  // ---------- continuations are positions of the body ----------

  /** Where each label of a body leads. */
  type Table = int -> Option<Kont>

  function Targets(body: Stmt): Table {
    n => Find(n, body, Stop)
  }

  /** `s` followed by `k` is a place of the body with this table: jumping from the top
      to a label of `s` arrives with the continuation the label has here. */
  predicate Place(table: Table, s: Stmt, k: Kont) {
    && Distinct(s)
    && forall n | n in Labels(s) :: table(n) == Find(n, s, k)
  }

  predicate Places(table: Table, k: Kont) {
    match k
    case Stop => true
    case KSeq(s, k') => Place(table, s, k') && Places(table, k')
    case KWhile(c, b, k') => Place(table, While(c, b), k') && Places(table, k')
    case KDo(b, c, k') => Place(table, DoWhile(b, c), k') && Places(table, k')
  }

  lemma PlaceOfParts(table: Table, s1: Stmt, s2: Stmt, k: Kont)
    requires Place(table, Seq(s1, s2), k)
    ensures Place(table, s1, KSeq(s2, k)) && Place(table, s2, k)
  {
    forall n | n in Labels(s1)
      ensures table(n) == Find(n, s1, KSeq(s2, k))
    {
      assert n in Labels(Seq(s1, s2));
      FindFindsLabels(n, s1, KSeq(s2, k));
    }
    forall n | n in Labels(s2)
      ensures table(n) == Find(n, s2, k)
    {
      assert n in Labels(Seq(s1, s2));
      FindFindsLabels(n, s1, KSeq(s2, k));
    }
  }

  lemma PlaceOfBranches(table: Table, c: nat, s1: Stmt, s2: Stmt, k: Kont)
    requires Place(table, If(c, s1, s2), k)
    ensures Place(table, s1, k) && Place(table, s2, k)
  {
    forall n | n in Labels(s1)
      ensures table(n) == Find(n, s1, k)
    {
      assert n in Labels(If(c, s1, s2));
      FindFindsLabels(n, s1, k);
    }
    forall n | n in Labels(s2)
      ensures table(n) == Find(n, s2, k)
    {
      assert n in Labels(If(c, s1, s2));
      FindFindsLabels(n, s1, k);
    }
  }

  lemma PlaceOfLoop(table: Table, c: nat, b: Stmt, k: Kont)
    ensures Place(table, While(c, b), k) ==> Place(table, b, KWhile(c, b, k))
    ensures Place(table, DoWhile(b, c), k) ==> Place(table, b, KDo(b, c, k))
    ensures Place(table, Skip, k)
  {
  }

  /** What follows a label of a place is again made of places. */
  lemma {:induction false} PlacesAfterLabel(table: Table, n: int, s: Stmt, k: Kont)
    requires Place(table, s, k) && Places(table, k) && Find(n, s, k).Some?
    ensures Places(table, Find(n, s, k).value)
  {
    match s
    case Seq(s1, s2) =>
      PlaceOfParts(table, s1, s2, k);
      if Find(n, s1, KSeq(s2, k)).Some? {
        PlacesAfterLabel(table, n, s1, KSeq(s2, k));
      } else {
        PlacesAfterLabel(table, n, s2, k);
      }
    case If(c, s1, s2) =>
      PlaceOfBranches(table, c, s1, s2, k);
      if Find(n, s1, k).Some? {
        PlacesAfterLabel(table, n, s1, k);
      } else {
        PlacesAfterLabel(table, n, s2, k);
      }
    case While(c, b) => PlacesAfterLabel(table, n, b, KWhile(c, b, k));
    case DoWhile(b, c) => PlacesAfterLabel(table, n, b, KDo(b, c, k));
    case _ =>
  }

  lemma {:induction false} PlacesAfterBreak(table: Table, k: Kont)
    requires Places(table, k)
    ensures BreakTo(k).Some? ==> Places(table, BreakTo(k).value)
    ensures ContinueTo(k).Some? ==> Places(table, ContinueTo(k).value)
  {
    match k
    case KSeq(_, k') => PlacesAfterBreak(table, k');
    case _ =>
  }

  // ---------- the expansion ----------

  /** The machine's frames for a continuation; under the body lies the switch of `reenter`. */
  function Frames(k: Kont): M.Frame {
    match k
    case Stop => M.FSwitch(M.Halt)
    case KSeq(s, k') => M.FSeq(Expand(s), Frames(k'))
    case KWhile(c, b, k') => M.FWhile(c, Expand(b), Frames(k'))
    case KDo(b, c, k') => M.FDo(Expand(b), c, Frames(k'))
  }

  /** A jump target in the middle of an expanded pseudo-keyword: `case n: ; break;`. */
  ghost predicate AtCase(target: Option<(M.Code, M.Frame)>, k: Kont) {
    && target.Some?
    && target.value.0 == M.Nop
    && exists b, post :: target.value.1 == M.FSeq(M.BreakOut, M.FLoop(b, post, Frames(k)))
  }

  /** The switch of `reenter` finds in the expansion exactly the labels of the body,
      each followed by the frames of its continuation. */
  lemma {:induction false} ExpansionKeepsLabels(n: int, s: Stmt, k: Kont)
    ensures var target := M.FindCase(n, Expand(s), Frames(k));
      match Find(n, s, k)
      case None => target == None
      case Some(k') => AtCase(target, k')
  {
    match s
    case Seq(s1, s2) => ExpansionKeepsLabels(n, s1, KSeq(s2, k)); ExpansionKeepsLabels(n, s2, k);
    case If(_, s1, s2) => ExpansionKeepsLabels(n, s1, k); ExpansionKeepsLabels(n, s2, k);
    case While(c, b) => ExpansionKeepsLabels(n, b, KWhile(c, b, k));
    case DoWhile(b, c) => ExpansionKeepsLabels(n, b, KDo(b, c, k));
    case Yield(m, a) => YieldHasOneCase(n, m, M.Perform(a), Frames(k));
    case YieldReturn(m, a) => YieldHasOneCase(n, m, M.Block(M.Perform(a), M.ReturnNow), Frames(k));
    case YieldBreak(m) => YieldHasOneCase(n, m, M.BreakOut, Frames(k));
    case Fork(m, a) => ForkHasOneCase(n, m, a, Frames(k));
    case _ =>
  }

  lemma YieldHasOneCase(n: int, m: int, s: M.Code, k: M.Frame)
    ensures M.FindCase(n, YieldImpl(m, s), k) ==
      if n == m then Some((M.Nop, M.FSeq(M.BreakOut, M.FLoop(YieldLoop(m, s), M.Nop, k)))) else None
  {
    var loop := M.FLoop(YieldLoop(m, s), M.Nop, k);
    assert M.FindCase(n, M.Case(m, M.Nop), M.FSeq(M.BreakOut, loop)) ==
      if n == m then Some((M.Nop, M.FSeq(M.BreakOut, loop))) else None;
    assert M.FindCase(n, M.BreakOut, loop) == None;
    assert M.FindCase(n, YieldLoop(m, s), loop) == M.FindCase(n, M.Block(M.Case(m, M.Nop), M.BreakOut), loop);
    assert M.FindCase(n, M.ForEver(YieldLoop(m, s), M.Nop), k) == M.FindCase(n, YieldLoop(m, s), loop);
  }

  lemma ForkHasOneCase(n: int, m: int, a: nat, k: M.Frame)
    ensures M.FindCase(n, ForkImpl(m, M.Spawn(a)), k) ==
      if n == -m then Some((M.Nop, M.FSeq(M.BreakOut, M.FLoop(ForkLoop(m, M.Spawn(a)), M.Assign(m), k)))) else None
  {
    var loop := M.FLoop(ForkLoop(m, M.Spawn(a)), M.Assign(m), k);
    assert M.FindCase(n, M.Case(-m, M.Nop), M.FSeq(M.BreakOut, loop)) ==
      if n == -m then Some((M.Nop, M.FSeq(M.BreakOut, loop))) else None;
    assert M.FindCase(n, M.BreakOut, loop) == None;
    assert M.FindCase(n, ForkLoop(m, M.Spawn(a)), loop) == M.FindCase(n, M.Block(M.Case(-m, M.Nop), M.BreakOut), loop);
    assert M.FindCase(n, M.ForEver(ForkLoop(m, M.Spawn(a)), M.Assign(m)), k) ==
      M.FindCase(n, ForkLoop(m, M.Spawn(a)), loop);
  }

  lemma JumpTargets(body: M.Code)
    ensures M.FindLabel(M.BailOut, Reenter(body), M.Halt) == Some((M.BreakOut, M.FSwitch(M.Halt)))
    ensures M.FindLabel(M.Terminate, Reenter(body), M.Halt) ==
      Some((M.Assign(-1), M.FSeq(M.Block(M.Jump(M.BailOut), M.Labelled(M.BailOut, M.BreakOut)), M.FSwitch(M.Halt))))
  {
    var k := M.FSwitch(M.Halt);
    var tail := M.Block(M.Jump(M.BailOut), M.Labelled(M.BailOut, M.BreakOut));
    var rest := M.Block(M.Labelled(M.Terminate, M.Assign(-1)), tail);
    forall l: M.Label
      ensures M.FindLabel(l, Reenter(body), M.Halt) ==
        M.OrElse(M.FindLabel(l, TerminateBlock(), k), M.FindLabel(l, M.Case(0, body), k))
    {
      var branch := M.Branch(M.NonZero, TerminateBlock(), M.Case(0, body));
      assert M.FindLabel(l, M.Case(-1, branch), k) == M.FindLabel(l, branch, k);
    }
    assert M.FindLabel(M.BailOut, tail, k) == Some((M.BreakOut, k));
    assert M.FindLabel(M.BailOut, rest, k) == Some((M.BreakOut, k));
    assert M.FindLabel(M.Terminate, rest, k) == Some((M.Assign(-1), M.FSeq(tail, k)));
  }

  // ---------- the relation ----------

  /** The integer `v` stands for the suspended coroutine `c`. */
  predicate Encodes(table: Table, v: int, c: Coro) {
    match c
    case Fresh => v == 0
    case After(k) => v > 0 && table(v) == Some(k)
    case Child(k) => v < -1 && table(v) == Some(k)
    case Spent => v > 1 && table(-v).Some?
    case Done => v == -1
  }

  predicate EncodesAll(table: Table, vs: seq<int>, cs: seq<Coro>) {
    |vs| == |cs| &&
    (vs != [] ==>
       && Encodes(table, vs[|vs| - 1], cs[|vs| - 1])
       && EncodesAll(table, vs[..|vs| - 1], cs[..|vs| - 1]))
  }

  lemma EncodesOneMore(table: Table, vs: seq<int>, cs: seq<Coro>, v: int, c: Coro)
    requires EncodesAll(table, vs, cs) && Encodes(table, v, c)
    ensures EncodesAll(table, vs + [v], cs + [c])
  {
    assert (vs + [v])[..|vs|] == vs;
    assert (cs + [c])[..|cs|] == cs;
  }

  lemma {:induction false} EncodesEach(table: Table, vs: seq<int>, cs: seq<Coro>)
    ensures EncodesAll(table, vs, cs) <==>
      |vs| == |cs| && forall i | 0 <= i < |vs| :: Encodes(table, vs[i], cs[i])
  {
    if |vs| == |cs| && vs != [] {
      EncodesEach(table, vs[..|vs| - 1], cs[..|cs| - 1]);
    }
  }

  /** The macro expansion and the direct activation are at the same place. */
  predicate Related(table: Table, d: State, m: M.Machine) {
    && d.trace == m.trace
    && EncodesAll(table, m.kids, d.kids)
    && match d
       case Run(s, k, child, forked, _, _) =>
         && m.s == Expand(s) && m.k == Frames(k)
         && child == (m.value < 0) && forked == m.modified
         && (forked ==> m.value > 1 && table(-m.value).Some?)
         && Place(table, s, k) && Places(table, k)
       case End(c, _, _) => M.Halted(m) && Encodes(table, M.Destroyed(m), c)
  }

  lemma {:induction false} BreakAgrees(k: Kont)
    ensures match BreakTo(k)
      case Some(k') => M.AfterBreak(Frames(k)) == Frames(k')
      case None => M.AfterBreak(Frames(k)) == M.Halt
    ensures match ContinueTo(k)
      case Some(k') => M.AfterContinue(Frames(k)) == Frames(k')
      case None => M.AfterContinue(Frames(k)) == M.Halt
  {
    match k
    case KSeq(_, k') => BreakAgrees(k');
    case _ =>
  }

  // ---------- one step ----------

  /** The frames around the statement of a yield. */
  function YieldFrames(n: int, s: M.Code, k: M.Frame): M.Frame {
    M.FLoop(YieldInner(s), M.Nop,
    M.FLoop(YieldOuter(s), M.Nop,
    M.FSwitch(M.FLoop(YieldLoop(n, s), M.Nop, k))))
  }

  lemma InnerSwitch(n: int, s: M.Code, k: M.Frame)
    ensures M.FindCase(0, M.ForEver(YieldOuter(s), M.Nop), M.FSwitch(M.FLoop(YieldLoop(n, s), M.Nop, k))) ==
      Some((s, YieldFrames(n, s, k)))
  {
    var k1 := M.FLoop(YieldOuter(s), M.Nop, M.FSwitch(M.FLoop(YieldLoop(n, s), M.Nop, k)));
    var k2 := M.FLoop(YieldInner(s), M.Nop, k1);
    assert M.FindCase(0, M.Branch(M.NonZero, M.Jump(M.BailOut), M.Case(0, s)), k2) == Some((s, k2));
    assert M.FindCase(0, YieldInner(s), k2) == Some((s, k2));
    assert M.FindCase(0, M.ForEver(YieldInner(s), M.Nop), k1) == Some((s, k2));
    assert M.FindCase(0, M.Branch(M.NonZero, M.Jump(M.Terminate), M.ForEver(YieldInner(s), M.Nop)), k1) ==
      Some((s, k2));
    assert M.FindCase(0, YieldOuter(s), k1) == Some((s, k2));
  }

  /** A yield saves its label and starts its statement. */
  lemma YieldStarts(p: M.Code, o: Oracle, m: M.Machine, n: int, s: M.Code)
    requires n != 0 && m.s == YieldImpl(n, s)
    ensures M.Steps(p, o, m, 6) == m.(s := s, k := YieldFrames(n, s, m.k), value := n, modified := true)
  {
    var loop := M.ForEver(YieldLoop(n, s), M.Nop);
    var m1 := M.Step(p, o, m);
    assert m1 == m.(s := M.Assign(n), k := M.FSeq(loop, m.k));
    var m2 := M.Step(p, o, m1);
    var m3 := M.Step(p, o, m2);
    assert m3 == m.(s := loop, value := n, modified := true);
    var m4 := M.Step(p, o, m3);
    var m5 := M.Step(p, o, m4);
    assert m5.s == M.Switch(M.ZeroToOne, M.ForEver(YieldOuter(s), M.Nop));
    InnerSwitch(n, s, m.k);
    var m6 := M.Step(p, o, m5);
    assert M.Steps(p, o, m3, 3) == m6;
    assert M.Steps(p, o, m, 6) == M.Steps(p, o, m3, 3);
  }

  /** Falling off that statement ends the activation and keeps the label. */
  lemma YieldBails(body: M.Code, o: Oracle, m: M.Machine, n: int, s: M.Code, k: M.Frame)
    requires m.value != 0 && m.s == M.Nop && m.k == YieldFrames(n, s, k)
    ensures M.Steps(Reenter(body), o, m, 7) == m.(k := M.Halt)
  {
    hide M.FindLabel, M.FindCase;
    var p := Reenter(body);
    var m1 := M.Step(p, o, m);
    var m2 := M.Step(p, o, m1);
    var m3 := M.Step(p, o, m2);
    assert m3.s == M.Branch(M.NonZero, M.Jump(M.BailOut), M.Case(0, s));
    var m4 := M.Step(p, o, m3);
    JumpTargets(body);
    var m5 := M.Step(p, o, m4);
    assert m5 == m.(s := M.BreakOut, k := M.FSwitch(M.Halt));
    assert M.Steps(p, o, m3, 4) == M.Steps(p, o, m5, 2);
    assert M.Steps(p, o, m, 7) == M.Steps(p, o, m3, 4);
  }

  /** `yield break` falls out of the inner loop into the jump that terminates. */
  lemma YieldTerminates(body: M.Code, o: Oracle, m: M.Machine, n: int, s: M.Code, k: M.Frame)
    requires m.value != 0 && m.s == M.BreakOut && m.k == YieldFrames(n, s, k)
    ensures M.Steps(Reenter(body), o, m, 14) == m.(s := M.Nop, k := M.Halt, value := -1, modified := true)
  {
    hide M.FindLabel, M.FindCase;
    var p := Reenter(body);
    var m1 := M.Step(p, o, m);
    var m2 := M.Step(p, o, m1);
    var m3 := M.Step(p, o, m2);
    var m4 := M.Step(p, o, m3);
    assert m4.s == M.Branch(M.NonZero, M.Jump(M.Terminate), M.ForEver(YieldInner(s), M.Nop));
    var m5 := M.Step(p, o, m4);
    Termination(body, o, m5);
    assert M.Steps(p, o, m, 14) == M.Steps(p, o, m4, 10);
    assert M.Steps(p, o, m4, 10) == M.Steps(p, o, m5, 9);
  }

  lemma Termination(body: M.Code, o: Oracle, m: M.Machine)
    requires m.s == M.Jump(M.Terminate)
    ensures M.Steps(Reenter(body), o, m, 9) == m.(s := M.Nop, k := M.Halt, value := -1, modified := true)
  {
    var p := Reenter(body);
    JumpTargets(body);
    hide M.FindLabel, M.FindCase;
    var m1 := M.Step(p, o, m);
    var m2 := M.Step(p, o, m1);
    var m3 := M.Step(p, o, m2);
    var m4 := M.Step(p, o, m3);
    assert m4.s == M.Jump(M.BailOut);
    var m5 := M.Step(p, o, m4);
    var m6 := M.Step(p, o, m5);
    assert m6 == m.(s := M.Nop, k := M.Halt, value := -1, modified := true);
    M.HaltedStays(p, o, m6, 3);
    assert M.Steps(p, o, m, 9) == M.Steps(p, o, m4, 5);
    assert M.Steps(p, o, m4, 5) == M.Steps(p, o, m6, 3);
  }

  /** A fork performs its statement with the child's value and goes on with the parent's. */
  lemma ForkSteps(p: M.Code, o: Oracle, m: M.Machine, n: int, a: nat) returns (c: nat)
    requires n > 0 && m.s == ForkImpl(n, M.Spawn(a))
    ensures c > 0 && M.Steps(p, o, m, c) ==
      m.(s := M.Nop, value := n, modified := true, trace := m.trace + [Did(a, true)], kids := m.kids + [-n])
  {
    var loop := M.ForEver(ForkLoop(n, M.Spawn(a)), M.Assign(n));
    var m1 := M.Step(p, o, m);
    var m2 := M.Step(p, o, m1);
    var m3 := M.Step(p, o, m2);
    assert m3 == m.(s := loop, value := -n, modified := true);
    var m4 := M.Step(p, o, m3);
    var m5 := M.Step(p, o, m4);
    var m6 := M.Step(p, o, m5);
    assert m6 == m3.(s := M.Nop, k := M.FLoop(ForkLoop(n, M.Spawn(a)), M.Assign(n), m.k),
                     trace := m.trace + [Did(a, true)], kids := m.kids + [-n]);
    var m7 := M.Step(p, o, m6);
    var m8 := M.Step(p, o, m7);
    var m9 := M.Step(p, o, m8);
    assert m9 == m6.(s := ForkLoop(n, M.Spawn(a)), value := n);
    var m10 := M.Step(p, o, m9);
    var m11 := M.Step(p, o, m10);
    var m12 := M.Step(p, o, m11);
    var m13 := M.Step(p, o, m12);
    assert m12.s == M.Nop && m13.s == M.BreakOut;
    var m14 := M.Step(p, o, m13);
    assert m14 == m9.(s := M.Nop, k := m.k);
    assert M.Steps(p, o, m, 14) == M.Steps(p, o, m3, 11);
    assert M.Steps(p, o, m3, 11) == M.Steps(p, o, m6, 8);
    assert M.Steps(p, o, m6, 8) == M.Steps(p, o, m9, 5);
    c := 14;
  }

  /** `yield return` leaves the function from inside the statement and keeps the label. */
  lemma YieldReturns(p: M.Code, o: Oracle, m: M.Machine, a: nat)
    requires m.s == M.Block(M.Perform(a), M.ReturnNow)
    ensures M.Steps(p, o, m, 4) ==
      m.(s := M.Nop, k := M.Halt, trace := m.trace + [Did(a, m.value < 0)])
  {
    var m1 := M.Step(p, o, m);
    var m2 := M.Step(p, o, m1);
    var m3 := M.Step(p, o, m2);
    var m4 := M.Step(p, o, m3);
    assert m4 == m.(s := M.Nop, k := M.Halt, trace := m.trace + [Did(a, m.value < 0)]);
    assert M.Steps(p, o, m, 4) == M.Steps(p, o, m2, 2);
  }

  lemma YieldRuns(body: M.Code, o: Oracle, m: M.Machine, n: int, a: nat) returns (c: nat)
    requires n > 0 && m.s == YieldImpl(n, M.Perform(a))
    ensures c > 0 && M.Steps(Reenter(body), o, m, c) ==
      m.(s := M.Nop, k := M.Halt, value := n, modified := true, trace := m.trace + [Did(a, false)])
  {
    var p, s := Reenter(body), M.Perform(a);
    YieldStarts(p, o, m, n, s);
    var m6 := M.Steps(p, o, m, 6);
    var m7 := M.Step(p, o, m6);
    YieldBails(body, o, m7, n, s, m.k);
    assert M.Steps(p, o, m6, 8) == M.Steps(p, o, m7, 7);
    M.StepsAdd(p, o, m, 6, 8);
    c := 14;
  }

  lemma YieldReturnRuns(body: M.Code, o: Oracle, m: M.Machine, n: int, a: nat) returns (c: nat)
    requires n > 0 && m.s == YieldImpl(n, M.Block(M.Perform(a), M.ReturnNow))
    ensures c > 0 && M.Steps(Reenter(body), o, m, c) ==
      m.(s := M.Nop, k := M.Halt, value := n, modified := true, trace := m.trace + [Did(a, false)])
  {
    var p, s := Reenter(body), M.Block(M.Perform(a), M.ReturnNow);
    YieldStarts(p, o, m, n, s);
    YieldReturns(p, o, M.Steps(p, o, m, 6), a);
    M.StepsAdd(p, o, m, 6, 4);
    c := 10;
  }

  lemma YieldBreakRuns(body: M.Code, o: Oracle, m: M.Machine, n: int) returns (c: nat)
    requires n > 0 && m.s == YieldImpl(n, M.BreakOut)
    ensures c > 0 && M.Steps(Reenter(body), o, m, c) ==
      m.(s := M.Nop, k := M.Halt, value := -1, modified := true)
  {
    var p := Reenter(body);
    YieldStarts(p, o, m, n, M.BreakOut);
    YieldTerminates(body, o, M.Steps(p, o, m, 6), n, M.BreakOut, m.k);
    M.StepsAdd(p, o, m, 6, 14);
    c := 20;
  }

  lemma YieldSimulated(table: Table, body: M.Code, o: Oracle, d: State, m: M.Machine) returns (c: nat)
    requires Related(table, d, m) && d.Run? && (d.s.Yield? || d.s.YieldReturn?)
    ensures c > 0 && Related(table, Step(o, d), M.Steps(Reenter(body), o, m, c))
  {
    if d.s.Yield? {
      c := YieldRuns(body, o, m, d.s.line, d.s.action);
    } else {
      c := YieldReturnRuns(body, o, m, d.s.line, d.s.action);
    }
    assert d.s.line in Labels(d.s);
  }

  lemma YieldBreakSimulated(table: Table, body: M.Code, o: Oracle, d: State, m: M.Machine) returns (c: nat)
    requires Related(table, d, m) && d.Run? && d.s.YieldBreak?
    ensures c > 0 && Related(table, Step(o, d), M.Steps(Reenter(body), o, m, c))
  {
    c := YieldBreakRuns(body, o, m, d.s.line);
  }

  /** The copy made at a fork is encoded by the negated label. */
  lemma ForkEncodesChild(table: Table, n: int, a: nat, k: Kont)
    requires Place(table, Fork(n, a), k)
    ensures n > 1 && Encodes(table, -n, Child(k)) && table(-n).Some?
  {
    assert -n in Labels(Fork(n, a));
    assert table(-n) == Some(k);
  }

  lemma ForkKeepsPlace(table: Table, d: State, m: M.Machine)
    requires Related(table, d, m) && d.Run? && d.s.Fork?
    ensures var n, trace := d.s.line, m.trace + [Did(d.s.action, true)];
      && n > 1 && m.s == ForkImpl(n, M.Spawn(d.s.action))
      && Related(table, Run(Skip, d.k, false, true, trace, d.kids + [Child(d.k)]),
                 m.(s := M.Nop, value := n, modified := true, trace := trace, kids := m.kids + [-n]))
  {
    ForkEncodesChild(table, d.s.line, d.s.action, d.k);
    EncodesOneMore(table, m.kids, d.kids, -d.s.line, Child(d.k));
    hide EncodesAll, Find;
  }

  /** The parent goes on with a positive value and the copy with a negative one, until the next
      yield: every action records the is_child() of its coroutine, on both sides alike. */
  lemma ForkSeparates(table: Table, body: M.Code, o: Oracle, d: State, m: M.Machine) returns (c: nat)
    requires Related(table, d, m) && d.Run? && d.s.Fork?
    ensures c > 0
    ensures var m' := M.Steps(Reenter(body), o, m, c);
      && m'.value == d.s.line && m'.kids == m.kids + [-d.s.line]
      && m'.trace == m.trace + [Did(d.s.action, true)]
      && Related(table, Run(Skip, d.k, false, true, m'.trace, d.kids + [Child(d.k)]), m')
  {
    hide Related, M.Steps;
    ForkKeepsPlace(table, d, m);
    c := ForkSteps(Reenter(body), o, m, d.s.line, d.s.action);
  }

  lemma ForkSimulated(table: Table, body: M.Code, o: Oracle, d: State, m: M.Machine) returns (c: nat)
    requires Related(table, d, m) && d.Run? && d.s.Fork?
    ensures c > 0 && Related(table, Step(o, d), M.Steps(Reenter(body), o, m, c))
  {
    hide Place, EncodesAll, M.Steps;
    c := ForkSeparates(table, body, o, d, m);
    assert d.trace == m.trace;
  }

  lemma SkipSimulated(table: Table, body: M.Code, o: Oracle, d: State, m: M.Machine)
    requires Related(table, d, m) && d.Run? && d.s.Skip?
    ensures Related(table, Step(o, d), M.Step(Reenter(body), o, m))
  {
    if d.k.KDo? {
      PlaceOfLoop(table, d.k.cond, d.k.body, d.k.k);
    }
    hide Place, EncodesAll, Labels, Find, Distinct;
  }

  lemma BranchSimulated(table: Table, body: M.Code, o: Oracle, d: State, m: M.Machine)
    requires Related(table, d, m) && d.Run? && (d.s.Seq? || d.s.If?)
    ensures Related(table, Step(o, d), M.Step(Reenter(body), o, m))
  {
    match d.s {
      case Seq(s1, s2) => PlaceOfParts(table, s1, s2, d.k);
      case If(c, s1, s2) => PlaceOfBranches(table, c, s1, s2, d.k);
    }
    hide Place, EncodesAll, Labels, Find, Distinct;
  }

  lemma LoopSimulated(table: Table, body: M.Code, o: Oracle, d: State, m: M.Machine)
    requires Related(table, d, m) && d.Run? && (d.s.While? || d.s.DoWhile?)
    ensures Related(table, Step(o, d), M.Step(Reenter(body), o, m))
  {
    PlaceOfLoop(table, d.s.cond, d.s.body, d.k);
    hide Place, EncodesAll, Labels, Find, Distinct;
  }

  /** Both sides jump out of a loop body, or out of the body altogether. */
  lemma JumpSimulated(table: Table, d: State, m: M.Machine, target: Option<Kont>, k: M.Frame)
    requires Related(table, d, m) && d.Run?
    requires k == match target case Some(k') => Frames(k') case None => M.Halt
    requires target.Some? ==> Places(table, target.value)
    ensures Related(table, Goto(d, target), m.(s := M.Nop, k := k))
  {
    hide EncodesAll, Find;
  }

  lemma BreakSimulated(table: Table, body: M.Code, o: Oracle, d: State, m: M.Machine)
    requires Related(table, d, m) && d.Run? && (d.s.Break? || d.s.Continue?)
    ensures Related(table, Step(o, d), M.Step(Reenter(body), o, m))
  {
    BreakAgrees(d.k);
    PlacesAfterBreak(table, d.k);
    var target := if d.s.Break? then BreakTo(d.k) else ContinueTo(d.k);
    JumpSimulated(table, d, m, target, match target case Some(k') => Frames(k') case None => M.Halt);
    hide Related;
  }

  lemma LeaveSimulated(table: Table, body: M.Code, o: Oracle, d: State, m: M.Machine)
    requires Related(table, d, m) && d.Run? && (d.s.Return? || d.s.Act?)
    ensures Related(table, Step(o, d), M.Step(Reenter(body), o, m))
  {
  }

  /** Every step of the direct meaning is matched by the expansion in one or more steps. */
  lemma StepSimulated(table: Table, body: M.Code, o: Oracle, d: State, m: M.Machine) returns (n: nat)
    requires Related(table, d, m) && d.Run?
    ensures n > 0 && Related(table, Step(o, d), M.Steps(Reenter(body), o, m, n))
  {
    if d.s.Yield? || d.s.YieldReturn? {
      n := YieldSimulated(table, body, o, d, m);
      return;
    } else if d.s.YieldBreak? {
      n := YieldBreakSimulated(table, body, o, d, m);
      return;
    } else if d.s.Fork? {
      n := ForkSimulated(table, body, o, d, m);
      return;
    }
    assert M.Steps(Reenter(body), o, m, 1) == M.Step(Reenter(body), o, m);
    if d.s.Skip? {
      SkipSimulated(table, body, o, d, m);
    } else if d.s.Seq? || d.s.If? {
      BranchSimulated(table, body, o, d, m);
    } else if d.s.While? || d.s.DoWhile? {
      LoopSimulated(table, body, o, d, m);
    } else if d.s.Break? || d.s.Continue? {
      BreakSimulated(table, body, o, d, m);
    } else {
      LeaveSimulated(table, body, o, d, m);
    }
    return 1;
  }
}
