/** Trying candidates in order: the loops that pick a root directory stop at
    the first candidate that passes their test. */
module Search {
  /** The position of the first element of `xs` from `from` on that passes
      `ok`, or `|xs|` when none does. */
  function FirstWhere<T>(ok: T -> bool, xs: seq<T>, from: nat): (k: nat)
    requires from <= |xs|
    ensures from <= k <= |xs|
    ensures k < |xs| ==> ok(xs[k])
    decreases |xs| - from
  {
    if from == |xs| then |xs|
    else if ok(xs[from]) then from
    else FirstWhere(ok, xs, from + 1)
  }

  /** Everything `FirstWhere` skips fails the test, so the position it finds
      is the first passing one. */
  lemma {:induction false} FirstWhereIsFirst<T>(ok: T -> bool, xs: seq<T>, from: nat)
    requires from <= |xs|
    ensures forall j :: from <= j < FirstWhere(ok, xs, from) ==> !ok(xs[j])
    decreases |xs| - from
  {
    if from < |xs| && !ok(xs[from]) {
      FirstWhereIsFirst(ok, xs, from + 1);
    }
  }
}
