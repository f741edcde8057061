/** Runs of a step system: a partial step function applied to a sequence of labels. */
module Runs {
  import opened Common

  /** The state after the labels, or None when one of them is not enabled. */
  function Exec<S, L>(step: (S, L) -> Option<S>, s: S, ls: seq<L>): Option<S>
    decreases |ls|
  {
    if ls == [] then Some(s)
    else match step(s, ls[0])
      case None => None
      case Some(s1) => Exec(step, s1, ls[1..])
  }

  ghost predicate Leads<S, L(!new)>(step: (S, L) -> Option<S>, s: S, t: S) {
    exists ls: seq<L> :: Exec(step, s, ls) == Some(t)
  }

  /** Every enabled step keeps the invariant. */
  ghost predicate Keeps<S(!new), L(!new)>(step: (S, L) -> Option<S>, inv: S -> bool) {
    forall s, l :: inv(s) && step(s, l).Some? ==> inv(step(s, l).value)
  }

  lemma {:induction false} ExecKeeps<S(!new), L(!new)>(step: (S, L) -> Option<S>, inv: S -> bool, s: S, ls: seq<L>)
    requires Keeps(step, inv) && inv(s) && Exec(step, s, ls).Some?
    ensures inv(Exec(step, s, ls).value)
    decreases |ls|
  {
    if ls != [] {
      ExecKeeps(step, inv, step(s, ls[0]).value, ls[1..]);
    }
  }

  lemma {:induction false} ExecAppend<S, L>(step: (S, L) -> Option<S>, s: S, ls: seq<L>, l: L)
    requires Exec(step, s, ls).Some?
    ensures Exec(step, s, ls + [l]) == step(Exec(step, s, ls).value, l)
    decreases |ls|
  {
    if ls == [] {
      assert [] + [l] == [l] && [l][1..] == [];
      assert step(s, l).Some? ==> Exec(step, step(s, l).value, []) == step(s, l);
    } else {
      assert (ls + [l])[1..] == ls[1..] + [l];
      ExecAppend(step, step(s, ls[0]).value, ls[1..], l);
    }
  }

  lemma LeadsStart<S, L(!new)>(step: (S, L) -> Option<S>, s: S)
    ensures Leads(step, s, s)
  {
    assert Exec(step, s, []) == Some(s);
  }

  /** One more step. */
  lemma LeadsTo<S, L(!new)>(step: (S, L) -> Option<S>, s: S, t: S, l: L)
    requires Leads(step, s, t) && step(t, l).Some?
    ensures Leads(step, s, step(t, l).value)
  {
    var ls :| Exec(step, s, ls) == Some(t);
    ExecAppend(step, s, ls, l);
  }

  lemma {:induction false} LeadsOn<S, L(!new)>(step: (S, L) -> Option<S>, r: S, s: S, t: S, ls: seq<L>)
    requires Leads(step, r, s) && Exec(step, s, ls) == Some(t)
    ensures Leads(step, r, t)
    decreases |ls|
  {
    if ls != [] {
      LeadsTo(step, r, s, ls[0]);
      LeadsOn(step, r, step(s, ls[0]).value, t, ls[1..]);
    }
  }
}
