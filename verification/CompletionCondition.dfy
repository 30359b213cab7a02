/** The completion conditions transfer_all, transfer_at_least and transfer_exactly. */
module CompletionCondition {

  const DEFAULT_MAX_TRANSFER_SIZE := 65536

  datatype Condition = TransferAll | TransferAtLeast(minimum: nat) | TransferExactly(size: nat) {

    /** How many bytes the next step may transfer; 0 ends the operation. */
    function Apply(failed: bool, transferred: nat): nat {
      match this
      case TransferAll =>
        if failed then 0 else DEFAULT_MAX_TRANSFER_SIZE
      case TransferAtLeast(minimum) =>
        if failed || transferred >= minimum then 0 else DEFAULT_MAX_TRANSFER_SIZE
      case TransferExactly(size) =>
        if failed || transferred >= size then 0
        else if size - transferred < DEFAULT_MAX_TRANSFER_SIZE then size - transferred
        else DEFAULT_MAX_TRANSFER_SIZE
    }
  }

  function Sum(steps: seq<nat>): nat {
    if steps == [] then 0 else Sum(steps[..|steps| - 1]) + steps[|steps| - 1]
  }

  /** Error-free steps that each move something and no more than the condition allowed. */
  predicate Transfer(c: Condition, steps: seq<nat>) {
    steps == [] ||
    (var n := |steps| - 1;
     Transfer(c, steps[..n]) && 1 <= steps[n] <= c.Apply(false, Sum(steps[..n])))
  }

  lemma NoStep(c: Condition)
    ensures Transfer(c, []) && Sum([]) == 0
  {
  }

  lemma OneMoreStep(c: Condition, steps: seq<nat>, n: nat)
    requires Transfer(c, steps) && 1 <= n <= c.Apply(false, Sum(steps))
    ensures Transfer(c, steps + [n]) && Sum(steps + [n]) == Sum(steps) + n
  {
    assert (steps + [n])[..|steps|] == steps;
  }

  /** No transfer goes past the size, so it ends with exactly the size. */
  lemma {:induction false} ExactlyIsExact(size: nat, steps: seq<nat>)
    requires Transfer(TransferExactly(size), steps)
    ensures Sum(steps) <= size
    ensures TransferExactly(size).Apply(false, Sum(steps)) == 0 <==> Sum(steps) == size
  {
    if steps != [] {
      ExactlyIsExact(size, steps[..|steps| - 1]);
    }
  }

  /** A transfer ends once the minimum is reached, and overshoots it by less than one step. */
  lemma {:induction false} AtLeastReaches(minimum: nat, steps: seq<nat>)
    requires Transfer(TransferAtLeast(minimum), steps)
    ensures TransferAtLeast(minimum).Apply(false, Sum(steps)) == 0 <==> Sum(steps) >= minimum
    ensures minimum == 0 ==> Sum(steps) == 0
    ensures minimum > 0 ==> Sum(steps) <= minimum + 65535
  {
    if steps != [] {
      AtLeastReaches(minimum, steps[..|steps| - 1]);
    }
  }

  /** Every total short of the minimum can be reached. */
  lemma {:induction false} ShortOf(minimum: nat, total: nat) returns (steps: seq<nat>)
    requires total < minimum
    ensures Transfer(TransferAtLeast(minimum), steps) && Sum(steps) == total
    decreases total
  {
    var c := TransferAtLeast(minimum);
    steps := [];
    NoStep(c);
    if total > 0 {
      var last := if total < DEFAULT_MAX_TRANSFER_SIZE then total else DEFAULT_MAX_TRANSFER_SIZE;
      steps := ShortOf(minimum, total - last);
      OneMoreStep(c, steps, last);
      steps := steps + [last];
    }
  }

  /** The bound of AtLeastReaches is attained: a last step may start one byte short of the minimum. */
  lemma AtLeastOvershoots(minimum: nat)
    requires minimum > 0
    ensures exists steps :: Transfer(TransferAtLeast(minimum), steps) &&
                            Sum(steps) == minimum + 65535
  {
    var steps := ShortOf(minimum, minimum - 1);
    OneMoreStep(TransferAtLeast(minimum), steps, DEFAULT_MAX_TRANSFER_SIZE);
  }

  /** A transfer of n steps is possible. */
  predicate Lasts(c: Condition, n: nat) {
    match c
    case TransferAll => true
    case TransferAtLeast(minimum) => n <= minimum
    case TransferExactly(size) => n <= size
  }

  lemma {:induction false} StepsMoveSomething(c: Condition, steps: seq<nat>)
    requires Transfer(c, steps)
    ensures |steps| <= Sum(steps) && Lasts(c, |steps|)
  {
    if steps != [] {
      StepsMoveSomething(c, steps[..|steps| - 1]);
    }
  }

  lemma {:induction false} OneByOne(c: Condition, n: nat) returns (steps: seq<nat>)
    requires Lasts(c, n)
    ensures Transfer(c, steps) && |steps| == Sum(steps) == n
  {
    steps := [];
    NoStep(c);
    if n > 0 {
      steps := OneByOne(c, n - 1);
      OneMoreStep(c, steps, 1);
      steps := steps + [1];
    }
  }

  /** Every error-free transfer stops, after at most as many steps as bytes are wanted and possibly after that
      many; only transfer_all can go on for any number of steps. */
  lemma TransfersStop(c: Condition, n: nat)
    ensures (exists steps :: Transfer(c, steps) && |steps| == n) <==> Lasts(c, n)
  {
    if steps :| Transfer(c, steps) && |steps| == n {
      StepsMoveSomething(c, steps);
    }
    if Lasts(c, n) {
      var steps := OneByOne(c, n);
    }
  }

  /** Exactly these are the error-free transfers: steps of 1 to 65536 bytes; under transfer_exactly as long as they
      fit the size, and under transfer_at_least until the minimum is reached. */
  lemma {:induction false} TransfersAre(c: Condition, steps: seq<nat>)
    ensures Transfer(c, steps) <==>
      && (forall i | 0 <= i < |steps| :: 1 <= steps[i] <= 65536)
      && match c
         case TransferAll => true
         case TransferAtLeast(minimum) => steps == [] || Sum(steps[..|steps| - 1]) < minimum
         case TransferExactly(size) => Sum(steps) <= size
  {
    if steps != [] {
      var first := steps[..|steps| - 1];
      TransfersAre(c, first);
      assert forall i | 0 <= i < |first| :: first[i] == steps[i];
      if c.TransferAtLeast? && first != [] {
        assert Sum(first) >= Sum(first[..|first| - 1]);
      }
    }
  }

  lemma {:induction false} StepsAreLarge(c: Condition, steps: seq<nat>)
    requires Transfer(c, steps)
    ensures |steps| <= Sum(steps) <= 65536 * |steps|
  {
    if steps != [] {
      StepsAreLarge(c, steps[..|steps| - 1]);
    }
  }

  lemma {:induction false} InSteps(size: nat, total: nat, n: nat) returns (steps: seq<nat>)
    requires n <= total <= size && total <= 65536 * n
    ensures Transfer(TransferExactly(size), steps) && Sum(steps) == total && |steps| == n
    decreases n
  {
    steps := [];
    NoStep(TransferExactly(size));
    if n > 0 {
      var last := if total - (n - 1) < 65536 then total - (n - 1) else 65536;
      steps := InSteps(size, total - last, n - 1);
      OneMoreStep(TransferExactly(size), steps, last);
      steps := steps + [last];
    }
  }

  /** A complete transfer of exactly size bytes takes at most a step for every byte and at least one for every
      65536; every number of steps between is possible. */
  lemma StepsOfExactly(size: nat, n: nat)
    ensures (exists steps :: Transfer(TransferExactly(size), steps) && Sum(steps) == size && |steps| == n)
       <==> (size + 65535) / 65536 <= n <= size
  {
    if steps :| Transfer(TransferExactly(size), steps) && Sum(steps) == size && |steps| == n {
      StepsAreLarge(TransferExactly(size), steps);
    }
    if (size + 65535) / 65536 <= n <= size {
      var steps := InSteps(size, size, n);
    }
  }

  /** In every condition an error ends the operation, and transfer_all ends for no other reason. */
  lemma AllNeverStops(c: Condition, failed: bool, transferred: nat)
    ensures c.Apply(true, transferred) == 0
    ensures TransferAll.Apply(failed, transferred) == 0 <==> failed
  {
  }
}
