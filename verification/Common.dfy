// What the parts share: an optional value, and lists without repeats from which some
// elements are taken out.

module Common {

  datatype Option<T> = None | Some(value: T)

  ghost predicate Distinct<T>(q: seq<T>) {
    forall i, j :: 0 <= i < j < |q| ==> q[i] != q[j]
  }

  /** What is left of a list, in order, when the elements that `drops` picks are taken out. */
  function Kept<T>(q: seq<T>, drops: T -> bool): seq<T> {
    if q == [] then [] else (if drops(q[0]) then [] else [q[0]]) + Kept(q[1..], drops)
  }

  lemma {:induction false} KeptIn<T>(q: seq<T>, drops: T -> bool)
    ensures forall t :: t in Kept(q, drops) <==> t in q && !drops(t)
    decreases |q|
  {
    if q != [] {
      assert q == [q[0]] + q[1..];
      KeptIn(q[1..], drops);
    }
  }

  lemma {:induction false} KeptAt<T>(q: seq<T>, drops: T -> bool)
    ensures forall i :: 0 <= i < |Kept(q, drops)| ==> Kept(q, drops)[i] in q && !drops(Kept(q, drops)[i])
    decreases |q|
  {
    if q != [] {
      assert q == [q[0]] + q[1..];
      KeptAt(q[1..], drops);
    }
  }

  lemma {:induction false} KeptDistinct<T>(q: seq<T>, drops: T -> bool)
    requires Distinct(q)
    ensures Distinct(Kept(q, drops))
    decreases |q|
  {
    if q != [] {
      var rest := q[1..];
      assert forall i :: 0 <= i < |rest| ==> rest[i] == q[i + 1];
      KeptDistinct(rest, drops);
      KeptIn(rest, drops);
      assert q[0] !in rest;
    }
  }

  lemma {:induction false} KeptAppend<T>(xs: seq<T>, ys: seq<T>, drops: T -> bool)
    ensures Kept(xs + ys, drops) == Kept(xs, drops) + Kept(ys, drops)
    decreases |xs|
  {
    if xs == [] {
      assert xs + ys == ys;
    } else {
      assert (xs + ys)[1..] == xs[1..] + ys;
      KeptAppend(xs[1..], ys, drops);
    }
  }
}
