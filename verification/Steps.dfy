/** Taking a step again and again. */
module Steps {
  function Iterate<S>(step: S -> S, s: S, k: nat): S {
    if k == 0 then s else Iterate(step, step(s), k - 1)
  }

  /** Some number of steps takes s to e. */
  ghost predicate Leads<S>(step: S -> S, s: S, e: S)
  {
    exists k: nat :: Iterate(step, s, k) == e
  }

  lemma {:induction false} IterateAdd<S>(step: S -> S, s: S, k: nat, m: nat)
    ensures Iterate(step, s, k + m) == Iterate(step, Iterate(step, s, k), m)
    decreases k
  {
    if k > 0 { IterateAdd(step, step(s), k - 1, m); }
  }

  lemma LeadsOn<S>(step: S -> S, s: S, a: S, e: S)
    requires Leads(step, s, a) && Leads(step, a, e)
    ensures Leads(step, s, e)
  {
    var k: nat :| Iterate(step, s, k) == a;
    var m: nat :| Iterate(step, a, m) == e;
    IterateAdd(step, s, k, m);
  }

  lemma LeadsOne<S>(step: S -> S, s: S)
    ensures Leads(step, s, s) && Leads(step, s, step(s))
  {
    assert Iterate(step, s, 0) == s;
    assert Iterate(step, s, 1) == Iterate(step, step(s), 0);
  }
}
