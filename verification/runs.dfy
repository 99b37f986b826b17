/** Runs of a state machine: a step function applied to a sequence of operations, and induction over them. */
module Runs {
  import opened Arith

  ghost function Exec<S, O>(step: (S, O) -> S, s: S, ops: seq<O>): S
    decreases ops
  {
    if ops == [] then s else Exec(step, step(s, ops[0]), ops[1..])
  }

  /** Every operation satisfies `ok` in the state in which it is executed. */
  ghost predicate Along<S, O>(step: (S, O) -> S, ok: (S, O) -> bool, s: S, ops: seq<O>)
    decreases ops
  {
    ops == [] || (ok(s, ops[0]) && Along(step, ok, step(s, ops[0]), ops[1..]))
  }

  /** The number of operations that satisfy `counts` in the state in which they are executed. */
  ghost function Count<S, O>(step: (S, O) -> S, counts: (S, O) -> bool, s: S, ops: seq<O>): nat
    decreases ops
  {
    if ops == [] then
      0
    else
      (if counts(s, ops[0]) then 1 else 0) + Count(step, counts, step(s, ops[0]), ops[1..])
  }

  lemma ExecStep<S, O>(step: (S, O) -> S, s: S, op: O, rest: seq<O>)
    ensures Exec(step, s, [op] + rest) == Exec(step, step(s, op), rest)
  {
    assert ([op] + rest)[1..] == rest;
  }

  lemma {:induction false} Invariant<S(!new), O(!new)>(
      step: (S, O) -> S, ok: (S, O) -> bool, inv: S -> bool, s: S, ops: seq<O>)
    requires forall t, o :: inv(t) && ok(t, o) ==> inv(step(t, o))
    requires inv(s) && Along(step, ok, s, ops)
    ensures inv(Exec(step, s, ops))
    decreases ops
  {
    if ops != [] {
      Invariant(step, ok, inv, step(s, ops[0]), ops[1..]);
    }
  }

  /** A guard that an invariant implies holds all along. */
  lemma {:induction false} GuardFromInvariant<S(!new), O(!new)>(
      step: (S, O) -> S, ok: (S, O) -> bool, inv: S -> bool, each: O -> bool, s: S, ops: seq<O>)
    requires forall t, o :: inv(t) && each(o) ==> ok(t, o) && inv(step(t, o))
    requires inv(s) && forall k :: 0 <= k < |ops| ==> each(ops[k])
    ensures Along(step, ok, s, ops)
    decreases ops
  {
    if ops != [] {
      GuardFromInvariant(step, ok, inv, each, step(s, ops[0]), ops[1..]);
    }
  }

  /** A property of the state and the operations still to come. */
  lemma {:induction false} Agenda<S(!new), O(!new)>(
      step: (S, O) -> S, ok: (S, O) -> bool, todo: (S, seq<O>) -> bool, s: S, ops: seq<O>)
    requires forall t, os :: todo(t, os) && os != [] ==> ok(t, os[0]) && todo(step(t, os[0]), os[1..])
    requires todo(s, ops)
    ensures Along(step, ok, s, ops) && todo(Exec(step, s, ops), [])
    decreases ops
  {
    if ops != [] {
      Agenda(step, ok, todo, step(s, ops[0]), ops[1..]);
    }
  }

  /** A height that never falls, and rises by at least `rise` at every counted operation. */
  lemma {:induction false} Climbs<S(!new), O(!new)>(
      step: (S, O) -> S, counts: (S, O) -> bool, inv: S -> bool, height: S -> int, rise: int, s: S, ops: seq<O>)
    requires forall t, o :: inv(t) ==> inv(step(t, o))
    requires forall t, o :: inv(t) ==> height(step(t, o)) >= height(t) + if counts(t, o) then rise else 0
    requires inv(s)
    ensures inv(Exec(step, s, ops))
    ensures height(Exec(step, s, ops)) >= height(s) + Count(step, counts, s, ops) * rise
    decreases ops
  {
    if ops != [] {
      var t := step(s, ops[0]);
      Climbs(step, counts, inv, height, rise, t, ops[1..]);
      MulDistributes(Count(step, counts, t, ops[1..]), 1, rise);
    }
  }
}
