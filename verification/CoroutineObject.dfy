/** The object whose integer the macros update. */
module CoroutineObject {
  import opened CoroutineDirect
  import opened CoroutineMacros
  import opened CoroutineRuns
  import M = SwitchMachine

  class Coroutine {
    var value: int

    constructor ()
      ensures value == 0
    {
      value := 0;
    }

    /** The copy that a fork statement makes. */
    constructor Copy(from: Coroutine)
      ensures value == from.value
    {
      value := from.value;
    }

    predicate IsChild() reads this { value < 0 }
  }

  class CoroutineRef {
    const target: Coroutine
    var modified: bool

    constructor (c: Coroutine)
      ensures target == c && !modified
    {
      target := c;
      modified := false;
    }

    method Assign(v: int)
      modifies this, target
      ensures modified && target.value == v
    {
      modified := true;
      target.value := v;
    }

    /** ~coroutine_ref */
    method Destroy()
      modifies target
      ensures target.value == if modified then old(target.value) else -1
    {
      if !modified {
        target.value := -1;
      }
    }
  }

  /** The machine that runs the code s with frames k on the object behind r. */
  function On(r: CoroutineRef, s: M.Code, k: M.Frame, trace: Trace, kids: seq<int>): M.Machine
    reads r, r.target
  {
    M.Machine(s, k, r.target.value, r.modified, trace, kids)
  }

  /** Evaluates a test of the expansion on the object. */
  method Test(r: CoroutineRef, o: Oracle, t: M.Test, trace: Trace) returns (b: bool)
    ensures forall s, k, kids :: b == M.Holds(o, t, On(r, s, k, trace, kids))
  {
    match t {
      case Cond(c) => b := o(c, trace, r.target.IsChild());
      case NonZero => b := r.target.value != 0;
      case Equals(n) => b := r.target.value == n;
    }
  }

  predicate Moves(s: M.Code) {
    !s.Perform? && !s.Spawn? && !s.Assign?
  }

  lemma MovesOnlyControl(p: M.Code, o: Oracle, m: M.Machine, kids: seq<int>)
    requires Moves(m.s)
    ensures var m' := M.Step(p, o, m);
      m' == m.(s := m'.s, k := m'.k) && M.Step(p, o, m.(kids := kids)) == m'.(kids := kids)
  {
    hide M.FindCase, M.FindLabel, M.AfterBreak, M.AfterContinue;
  }

  /** An instruction that moves control: to a branch, to a case label, or wherever the frames say. */
  method Move(p: M.Code, o: Oracle, r: CoroutineRef, s: M.Code, k: M.Frame, trace: Trace)
    returns (s': M.Code, k': M.Frame)
    requires Moves(s)
    ensures On(r, s', k', trace, []) == M.Step(p, o, On(r, s, k, trace, []))
  {
    MovesOnlyControl(p, o, On(r, s, k, trace, []), []);
    if s.Branch? {
      var b := Test(r, o, s.test, trace);
      s', k' := if b then s.thn else s.els, k;
    } else if s.Switch? {
      var v := if s.on.Value? then r.target.value else if r.target.value != 0 then 0 else 1;
      var target := M.FindCase(v, s.body, M.FSwitch(k));
      s', k' := M.Nop, k;
      if target.Some? {
        s', k' := target.value.0, target.value.1;
      }
    } else {
      var m := M.Step(p, o, On(r, s, k, trace, []));
      s', k' := m.s, m.k;
    }
  }

  /** Executes one instruction on the object; a fork statement makes a copy of it. */
  method Execute(p: M.Code, o: Oracle, r: CoroutineRef, s: M.Code, k: M.Frame, trace: Trace, ghost kids: seq<int>)
    returns (s': M.Code, k': M.Frame, trace': Trace, child: Coroutine?)
    modifies r, r.target
    ensures On(r, s', k', trace', if child == null then kids else kids + [child.value]) ==
      M.Step(p, o, old(On(r, s, k, trace, kids)))
    ensures child != null <==> s.Spawn?
    ensures child != null ==> fresh(child)
  {
    s', k', trace', child := M.Nop, k, trace, null;
    if Moves(s) {
      s', k' := Move(p, o, r, s, k, trace);
      MovesOnlyControl(p, o, On(r, s, k, trace, []), kids);
      hide M.Step;
    } else if s.Assign? {
      r.Assign(s.v);
    } else {
      trace' := trace + [Did(s.action, r.target.IsChild())];
      if s.Spawn? {
        child := new Coroutine.Copy(r.target);
      }
    }
  }

  /** Runs one activation on the object for at most `fuel` instructions. */
  method Reenter(co: Coroutine, body: Stmt, o: Oracle, trace: Trace, fuel: nat)
    returns (halted: bool, actions: Trace, kids: seq<Coroutine>)
    modifies co
    ensures var m := M.Steps(Program(body), o, Activation(body, old(co.value), trace), fuel);
      && halted == M.Halted(m)
      && actions == m.trace
      && |kids| == |m.kids|
      && (forall i | 0 <= i < |kids| :: fresh(kids[i]) && kids[i].value == m.kids[i])
      && co.value == (if halted then M.Destroyed(m) else m.value)
  {
    var r := new CoroutineRef(co);
    var p := Program(body);
    ghost var start := Activation(body, co.value, trace);
    ghost var values: seq<int> := [];
    var s, k := p, M.Halt;
    actions, kids := trace, [];
    for n := 0 to fuel
      invariant fresh(r) && r.target == co
      invariant On(r, s, k, actions, values) == M.Steps(p, o, start, n)
      invariant |kids| == |values|
      invariant forall i | 0 <= i < |kids| :: fresh(kids[i]) && kids[i] != co && kids[i].value == values[i]
    {
      M.StepsAdd(p, o, start, n, 1);
      var child;
      s, k, actions, child := Execute(p, o, r, s, k, actions, values);
      if child != null {
        values := values + [child.value];
        kids := kids + [child];
      }
    }
    halted := s == M.Nop && k == M.Halt;
    if halted {
      r.Destroy();
    }
  }
}
