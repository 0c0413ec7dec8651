/** Runs of a state machine: a list of actions taken one after another.
    Every concurrent part of the model is a function `next` from a state and an action to
    the state after it, or to None when the action is not possible in that state. */
module Runs {
  import opened Options

  /** The state after the actions, or None when one of them was not possible. */
  function Exec<S, A>(next: (S, A) -> Option<S>, s: S, acts: seq<A>): Option<S>
    decreases |acts|
  {
    if acts == [] then Some(s)
    else
      match next(s, acts[0])
      case None => None
      case Some(t) => Exec(next, t, acts[1..])
  }

  /** What every step keeps, every run keeps. */
  lemma {:induction false} RunKeeps<S(!new), A(!new)>(
      next: (S, A) -> Option<S>, inv: S -> bool, s: S, acts: seq<A>)
    requires inv(s)
    requires forall x, a :: inv(x) && next(x, a).Some? ==> inv(next(x, a).value)
    ensures Exec(next, s, acts).Some? ==> inv(Exec(next, s, acts).value)
    decreases |acts|
  {
    if acts != [] && next(s, acts[0]).Some? {
      RunKeeps(next, inv, next(s, acts[0]).value, acts[1..]);
    }
  }

  /** A measure that no step lowers is not lowered by any run. */
  lemma {:induction false} RunNeverLowers<S(!new), A(!new)>(
      next: (S, A) -> Option<S>, inv: S -> bool, rank: S -> int, s: S, acts: seq<A>)
    requires inv(s)
    requires forall x, a :: inv(x) && next(x, a).Some? ==>
               inv(next(x, a).value) && rank(x) <= rank(next(x, a).value)
    ensures Exec(next, s, acts).Some? ==> rank(s) <= rank(Exec(next, s, acts).value)
    decreases |acts|
  {
    if acts != [] && next(s, acts[0]).Some? {
      RunNeverLowers(next, inv, rank, next(s, acts[0]).value, acts[1..]);
    }
  }

  /** Two runs, one after the other. */
  lemma {:induction false} RunThenRun<S, A>(next: (S, A) -> Option<S>, s: S, first: seq<A>, second: seq<A>)
    ensures Exec(next, s, first + second) ==
            match Exec(next, s, first)
            case None => None
            case Some(t) => Exec(next, t, second)
    decreases |first|
  {
    if first == [] {
      assert first + second == second;
    } else {
      assert (first + second)[1..] == first[1..] + second;
      if next(s, first[0]).Some? {
        RunThenRun(next, next(s, first[0]).value, first[1..], second);
      }
    }
  }

  /** A run and one more step. */
  lemma RunThenStep<S, A>(next: (S, A) -> Option<S>, s: S, acts: seq<A>, a: A)
    requires Exec(next, s, acts).Some?
    ensures Exec(next, s, acts + [a]) == next(Exec(next, s, acts).value, a)
  {
    RunThenRun(next, s, acts, [a]);
    var t := Exec(next, s, acts).value;
    assert [a][0] == a && [a][1..] == [];
    assert next(t, a).Some? ==> Exec(next, next(t, a).value, []) == next(t, a);
  }

  lemma RunOfOne<S, A>(next: (S, A) -> Option<S>, s: S, a: A)
    ensures Exec(next, s, [a]) == next(s, a)
  {
    assert [] + [a] == [a];
    RunThenStep(next, s, [], a);
  }

  lemma RunOfTwo<S, A>(next: (S, A) -> Option<S>, s: S, a: A, b: A)
    requires next(s, a).Some?
    ensures Exec(next, s, [a, b]) == next(next(s, a).value, b)
  {
    RunOfOne(next, s, a);
    RunThenStep(next, s, [a], b);
    assert [a] + [b] == [a, b];
  }

  /** Where some step always brings the goal nearer, some run reaches it. */
  lemma {:induction false} CanReach<S(!new), A(!new)>(
      next: (S, A) -> Option<S>, inv: S -> bool, goal: S -> bool, distance: S -> nat, s: S) returns (acts: seq<A>)
    requires inv(s)
    requires forall x :: inv(x) && !goal(x) ==>
               exists a :: next(x, a).Some? && inv(next(x, a).value) && distance(next(x, a).value) < distance(x)
    ensures Exec(next, s, acts).Some? && inv(Exec(next, s, acts).value) && goal(Exec(next, s, acts).value)
    decreases distance(s)
  {
    if goal(s) {
      acts := [];
    } else {
      var a :| next(s, a).Some? && inv(next(s, a).value) && distance(next(s, a).value) < distance(s);
      var rest := CanReach(next, inv, goal, distance, next(s, a).value);
      acts := [a] + rest;
      assert acts[1..] == rest;
    }
  }
}
