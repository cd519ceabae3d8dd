// The circular doubly linked list under the kernel's lists: a head and elements linked both
// ways, changed in place, and walked with the next element saved beforehand.

module Klist {
  import opened Common

  /** `owner` names the structure that the links are a part of. */
  class Node {
    var prev: Node?
    var next: Node?
    const owner: nat

    constructor (element: nat)
      ensures prev == null && next == null && owner == element
    {
      prev, next, owner := null, null, element;
    }
  }

  ghost predicate Linked(a: Node, b: Node)
    reads a, b
  {
    a.next == b && b.prev == a
  }

  /** The nodes of `ring`, head first, are linked into a circle in that order. */
  ghost predicate Ring(ring: seq<Node>)
    reads ring
  {
    && |ring| >= 1
    && (forall i, j :: 0 <= i < j < |ring| ==> ring[i] != ring[j])
    && (forall i, j :: 0 <= i && i + 1 == j && j < |ring| ==> Linked(ring[i], ring[j]))
    && Linked(ring[|ring| - 1], ring[0])
  }

  /** The element after element `i`, around the circle. */
  function After(ring: seq<Node>, i: nat): Node
    requires i < |ring|
  {
    if i + 1 == |ring| then ring[0] else ring[i + 1]
  }

  /** The index of the element before element `i`, around the circle. */
  function Preceding(ring: seq<Node>, i: nat): (j: nat)
    requires i < |ring|
    ensures j < |ring|
  {
    if i == 0 then |ring| - 1 else i - 1
  }

  function Inserted(ring: seq<Node>, i: nat, x: Node): seq<Node>
    requires i <= |ring|
  {
    ring[..i] + [x] + ring[i..]
  }

  lemma InsertedIndex(ring: seq<Node>, i: nat, x: Node)
    requires i <= |ring|
    ensures var r := Inserted(ring, i, x);
            && |r| == |ring| + 1 && r[i] == x
            && (forall k :: 0 <= k < i ==> r[k] == ring[k])
            && (forall k :: i < k < |r| ==> r[k] == ring[k - 1])
  {
  }

  /** The links that make a ring with `x` after element `i`. */
  lemma InsertedRing(ring: seq<Node>, i: nat, x: Node)
    requires i < |ring| && x !in ring
    requires forall k, l :: 0 <= k < l < |ring| ==> ring[k] != ring[l]
    requires Linked(ring[i], x) && Linked(x, After(ring, i))
    requires forall k, l :: 0 <= k && k + 1 == l && l < |ring| && k != i ==> Linked(ring[k], ring[l])
    requires i + 1 < |ring| ==> Linked(ring[|ring| - 1], ring[0])
    ensures Ring(Inserted(ring, i + 1, x))
  {
    InsertedIndex(ring, i + 1, x);
    hide Inserted, Linked;
    var r := Inserted(ring, i + 1, x);
    forall k, l | 0 <= k && k + 1 == l && l < |r| ensures Linked(r[k], r[l]) {
      if k < i {
        assert Linked(ring[k], ring[l]);
      } else if k > i + 1 {
        assert Linked(ring[k - 1], ring[l - 1]);
      }
    }
  }

  function Removed(ring: seq<Node>, i: nat): seq<Node>
    requires i < |ring|
  {
    ring[..i] + ring[i + 1..]
  }

  method Init(head: Node)
    modifies head
    ensures Ring([head])
  {
    head.prev := head;
    head.next := head;
  }

  method IsEmpty(head: Node, ghost ring: seq<Node>) returns (empty: bool)
    requires Ring(ring) && head == ring[0]
    ensures empty <==> |ring| == 1
  {
    empty := head.prev == head;
    assert Linked(ring[|ring| - 1], ring[0]);
  }

  /** klist_add: `x` comes right after element `i`. */
  method AddAfter(at: Node, x: Node, ghost ring: seq<Node>, ghost i: nat)
    requires Ring(ring) && i < |ring| && at == ring[i] && x !in ring
    modifies at, x, After(ring, i)
    ensures Ring(Inserted(ring, i + 1, x))
  {
    assert Linked(at, After(ring, i));
    x.prev := at;
    x.next := at.next;
    at.next.prev := x;
    at.next := x;
    InsertedRing(ring, i, x);
  }

  /** klist_add_back: `x` comes right before element `i`; before the head is last. */
  method AddBefore(at: Node, x: Node, ghost ring: seq<Node>, ghost i: nat)
    requires Ring(ring) && i < |ring| && at == ring[i] && x !in ring
    modifies at, x, ring[Preceding(ring, i)]
    ensures Ring(Inserted(ring, Preceding(ring, i) + 1, x))
  {
    ghost var j := Preceding(ring, i);
    assert Linked(ring[j], at) && After(ring, j) == at;
    x.prev := at.prev;
    x.next := at;
    at.prev.next := x;
    at.prev := x;
    InsertedRing(ring, j, x);
  }

  /** klist_del: element `i` is unlinked and its own links cleared. */
  method Delete(x: Node, ghost ring: seq<Node>, ghost i: nat)
    requires Ring(ring) && 0 < i < |ring| && x == ring[i]
    modifies x, ring[i - 1], After(ring, i)
    ensures Ring(Removed(ring, i))
    ensures x.prev == null && x.next == null
  {
    assert Linked(ring[i - 1], x) && Linked(x, After(ring, i));
    if x.prev != null {
      x.prev.next := x.next;
    }
    if x.next != null {
      x.next.prev := x.prev;
    }
    x.prev := null;
    x.next := null;
    assert Linked(ring[i - 1], After(ring, i));
    assert forall k, l :: 0 <= k && k + 1 == l && l < |ring| && k != i - 1 && k != i ==> Linked(ring[k], ring[l]);
  }

  /** The elements that are not in `doomed`, in order. */
  function Survivors(xs: seq<Node>, doomed: set<Node>): seq<Node> {
    Kept(xs, x => x in doomed)
  }

  // ----- Walking -----

  /** What the visit of `x` puts into the list, one by one at the front. */
  function Coming(arrivals: map<Node, seq<Node>>, x: Node): seq<Node> {
    if x in arrivals then arrivals[x] else []
  }

  function Flip(xs: seq<Node>): (r: seq<Node>)
    ensures |r| == |xs|
    ensures forall i :: 0 <= i < |xs| ==> r[i] == xs[|xs| - 1 - i]
  {
    if xs == [] then [] else Flip(xs[1..]) + [xs[0]]
  }

  /** What the visits of `xs` put in front of the list: the latest arrival comes first. */
  function Arrived(xs: seq<Node>, arrivals: map<Node, seq<Node>>): seq<Node> {
    if xs == [] then [] else Flip(Coming(arrivals, xs[|xs| - 1])) + Arrived(xs[..|xs| - 1], arrivals)
  }

  /** The visit of element `k` puts in an `i`-th node. */
  predicate Comes(ring: seq<Node>, arrivals: map<Node, seq<Node>>, k: int, i: int) {
    1 <= k < |ring| && 0 <= i < |Coming(arrivals, ring[k])|
  }

  function Comer(ring: seq<Node>, arrivals: map<Node, seq<Node>>, k: int, i: int): Node
    requires Comes(ring, arrivals, k, i)
  {
    Coming(arrivals, ring[k])[i]
  }

  /** All nodes that come in. */
  function Newcomers(arrivals: map<Node, seq<Node>>): set<Node> {
    set x, n | x in arrivals && n in arrivals[x] :: n
  }

  /** A node that a visit puts in is not in the list then: it was not there at the start, or
      the walk has deleted it already.  None is put in twice. */
  ghost predicate MayCome(ring: seq<Node>, doomed: set<Node>, arrivals: map<Node, seq<Node>>) {
    && (forall k, i :: Comes(ring, arrivals, k, i) ==> Outside(ring, k, doomed, Comer(ring, arrivals, k, i)))
    && (forall k, i, l, j :: Comes(ring, arrivals, k, i) && Comes(ring, arrivals, l, j) && (k != l || i != j) ==>
          Comer(ring, arrivals, k, i) != Comer(ring, arrivals, l, j))
  }

  ghost predicate Outside(ring: seq<Node>, k: nat, doomed: set<Node>, n: Node)
    requires 1 <= k <= |ring|
  {
    n != ring[0] && n !in ring[k..] && (n in ring[1..k] ==> n in doomed)
  }

  /** A node that none of the visits before `k` put in has not arrived. */
  lemma {:induction false} NotArrived(ring: seq<Node>, k: nat, arrivals: map<Node, seq<Node>>, n: Node)
    requires 1 <= k <= |ring|
    requires forall l, j :: l < k && Comes(ring, arrivals, l, j) ==> Comer(ring, arrivals, l, j) != n
    ensures n !in Arrived(ring[1..k], arrivals)
    decreases k
  {
    var xs := ring[1..k];
    if k > 1 {
      assert xs[..|xs| - 1] == ring[1..k - 1] && xs[|xs| - 1] == ring[k - 1];
      NotArrived(ring, k - 1, arrivals, n);
      var coming := Coming(arrivals, ring[k - 1]);
      forall j | 0 <= j < |coming| ensures coming[j] != n {
        assert Comes(ring, arrivals, k - 1, j);
        assert Comer(ring, arrivals, k - 1, j) == coming[j];
      }
    }
  }

  lemma {:induction false} ArrivedIn(xs: seq<Node>, arrivals: map<Node, seq<Node>>)
    ensures forall n :: n in Arrived(xs, arrivals) ==> n in Newcomers(arrivals)
    decreases |xs|
  {
    if xs != [] {
      ArrivedIn(xs[..|xs| - 1], arrivals);
      ComingIn(arrivals, xs[|xs| - 1]);
    }
  }

  lemma ComingIn(arrivals: map<Node, seq<Node>>, x: Node)
    ensures forall i :: 0 <= i < |Coming(arrivals, x)| ==> Coming(arrivals, x)[i] in Newcomers(arrivals)
  {
    var coming := Coming(arrivals, x);
    forall i | 0 <= i < |coming| ensures coming[i] in Newcomers(arrivals) {
      assert x in arrivals && coming[i] in arrivals[x];
    }
  }

  /** The list in the middle of the visit of element `k`, after the first `i` arrivals. */
  function Partly(ring: seq<Node>, k: nat, i: nat, doomed: set<Node>, arrivals: map<Node, seq<Node>>): seq<Node>
    requires 1 <= k < |ring| && i <= |Coming(arrivals, ring[k])|
  {
    ring[..1] + Flip(Coming(arrivals, ring[k])[..i])
    + (Arrived(ring[1..k], arrivals) + Survivors(ring[1..k], doomed) + ring[k..])
  }

  /** The list between two visits: arrivals, survivors, and what is still to visit. */
  function Midway(ring: seq<Node>, k: nat, doomed: set<Node>, arrivals: map<Node, seq<Node>>): seq<Node>
    requires 1 <= k <= |ring|
  {
    ring[..1] + Arrived(ring[1..k], arrivals) + Survivors(ring[1..k], doomed) + ring[k..]
  }

  lemma PartlyStep(ring: seq<Node>, k: nat, i: nat, doomed: set<Node>, arrivals: map<Node, seq<Node>>)
    requires 1 <= k < |ring| && i < |Coming(arrivals, ring[k])|
    ensures Partly(ring, k, i + 1, doomed, arrivals)
            == Inserted(Partly(ring, k, i, doomed, arrivals), 1, Coming(arrivals, ring[k])[i])
  {
    hide Arrived, Survivors;
    var coming := Coming(arrivals, ring[k]);
    FlipSnoc(coming[..i], coming[i]);
    assert coming[..i + 1] == coming[..i] + [coming[i]];
    var tail := Arrived(ring[1..k], arrivals) + Survivors(ring[1..k], doomed) + ring[k..];
    FrontInsert(ring[..1], coming[i], Flip(coming[..i]), tail);
  }

  lemma FlipSnoc(xs: seq<Node>, x: Node)
    ensures Flip(xs + [x]) == [x] + Flip(xs)
  {
  }

  lemma FrontInsert(a: seq<Node>, x: Node, b: seq<Node>, c: seq<Node>)
    requires |a| == 1
    ensures a + ([x] + b) + c == Inserted(a + b + c, 1, x)
  {
  }

  lemma PartlyBegins(ring: seq<Node>, k: nat, doomed: set<Node>, arrivals: map<Node, seq<Node>>)
    requires 1 <= k < |ring|
    ensures Partly(ring, k, 0, doomed, arrivals) == Midway(ring, k, doomed, arrivals)
  {
    hide Arrived, Survivors;
    assert Coming(arrivals, ring[k])[..0] == [];
    assert Flip([]) == [];
  }

  /** The visit ends with the deletion of the element, if it is doomed. */
  lemma PartlyEnds(ring: seq<Node>, k: nat, doomed: set<Node>, arrivals: map<Node, seq<Node>>)
    requires 1 <= k < |ring|
    ensures var n := |Coming(arrivals, ring[k])|;
            var full := Partly(ring, k, n, doomed, arrivals);
            var at := |full| - |ring| + k;
            && 0 < at < |full| && full[at] == ring[k]
            && Midway(ring, k + 1, doomed, arrivals) == if ring[k] in doomed then Removed(full, at) else full
  {
    hide Survivors, Removed;
    var coming, done, next := Coming(arrivals, ring[k]), ring[1..k], ring[1..k + 1];
    assert coming[..|coming|] == coming;
    assert next[..|next| - 1] == done && next[|next| - 1] == ring[k];
    assert Arrived(next, arrivals) == Flip(coming) + Arrived(done, arrivals);
    hide Arrived, Flip;
    SurvivorsStep(ring, k, doomed);
    assert ring[k..] == [ring[k]] + ring[k + 1..];
    Splice(ring[..1], Flip(coming), Arrived(done, arrivals), Survivors(done, doomed), ring[k], ring[k + 1..]);
  }

  lemma SurvivorsStep(ring: seq<Node>, k: nat, doomed: set<Node>)
    requires 1 <= k < |ring|
    ensures Survivors(ring[1..k + 1], doomed)
            == Survivors(ring[1..k], doomed) + if ring[k] in doomed then [] else [ring[k]]
  {
    var x := ring[k];
    assert ring[1..k + 1] == ring[1..k] + [x];
    KeptAppend(ring[1..k], [x], n => n in doomed);
    assert [x][1..] == [];
  }

  lemma Splice(h: seq<Node>, a: seq<Node>, b: seq<Node>, c: seq<Node>, x: Node, rest: seq<Node>)
    ensures (h + a + (b + c + ([x] + rest)))[|h| + |a| + |b| + |c|] == x
    ensures Removed(h + a + (b + c + ([x] + rest)), |h| + |a| + |b| + |c|) == h + (a + b) + (c + []) + rest
    ensures h + (a + b) + (c + [x]) + rest == h + a + (b + c + ([x] + rest))
  {
  }

  /** The next node to come in is not in the list. */
  lemma ComingIsOutside(ring: seq<Node>, k: nat, i: nat, doomed: set<Node>, arrivals: map<Node, seq<Node>>)
    requires 1 <= k < |ring| && i < |Coming(arrivals, ring[k])| && MayCome(ring, doomed, arrivals)
    ensures Coming(arrivals, ring[k])[i] !in Partly(ring, k, i, doomed, arrivals)
  {
    var coming := Coming(arrivals, ring[k]);
    var n := coming[i];
    assert Comes(ring, arrivals, k, i) && Comer(ring, arrivals, k, i) == n;
    assert Outside(ring, k, doomed, n);
    forall j | 0 <= j < i ensures coming[j] != n {
      assert Comes(ring, arrivals, k, j) && Comer(ring, arrivals, k, j) == coming[j];
    }
    assert n !in Flip(coming[..i]);
    NotArrived(ring, k, arrivals, n);
    SurvivorsOut(ring[1..k], doomed);
  }

  lemma SurvivorsOut(xs: seq<Node>, doomed: set<Node>)
    ensures forall n :: n in Survivors(xs, doomed) ==> n in xs && n !in doomed
  {
    KeptAt(xs, x => x in doomed);
  }

  /** A visit touches only nodes of the list and newcomers. */
  lemma PartlyIn(ring: seq<Node>, k: nat, i: nat, doomed: set<Node>, arrivals: map<Node, seq<Node>>)
    requires 1 <= k < |ring| && i <= |Coming(arrivals, ring[k])|
    ensures forall n :: n in Partly(ring, k, i, doomed, arrivals) ==> n in ring || n in Newcomers(arrivals)
    ensures Partly(ring, k, i, doomed, arrivals) != [] && Partly(ring, k, i, doomed, arrivals)[0] == ring[0]
  {
    SurvivorsOut(ring[1..k], doomed);
    ComingIn(arrivals, ring[k]);
    ArrivedIn(ring[1..k], arrivals);
  }

  lemma MidwayEnds(ring: seq<Node>, doomed: set<Node>, arrivals: map<Node, seq<Node>>)
    requires |ring| >= 1
    ensures Midway(ring, 1, doomed, arrivals) == ring
    ensures Midway(ring, |ring|, doomed, arrivals)
            == [ring[0]] + Arrived(ring[1..], arrivals) + Survivors(ring[1..], doomed)
  {
    assert ring[1..|ring|] == ring[1..];
  }

  /** One visit: the arrivals come to the front, and the element goes if it is doomed. */
  method Visit(head: Node, name: Node, doomed: set<Node>, arrivals: map<Node, seq<Node>>,
               ghost ring: seq<Node>, ghost k: nat)
    requires 1 <= k < |ring| && head == ring[0] && name == ring[k]
    requires Ring(Midway(ring, k, doomed, arrivals)) && MayCome(ring, doomed, arrivals)
    modifies ring, Newcomers(arrivals)
    ensures Ring(Midway(ring, k + 1, doomed, arrivals))
  {
    hide Ring, Midway, Partly, MayCome, Newcomers;
    PartlyBegins(ring, k, doomed, arrivals);
    var coming := Coming(arrivals, name);
    var i := 0;
    while i < |coming|
      invariant 0 <= i <= |coming| && Ring(Partly(ring, k, i, doomed, arrivals))
    {
      PartlyIn(ring, k, i, doomed, arrivals);
      ComingIn(arrivals, name);
      ComingIsOutside(ring, k, i, doomed, arrivals);
      PartlyStep(ring, k, i, doomed, arrivals);
      ghost var now := Partly(ring, k, i, doomed, arrivals);
      AddAfter(head, coming[i], now, 0);
      i := i + 1;
    }
    PartlyEnds(ring, k, doomed, arrivals);
    ghost var full := Partly(ring, k, i, doomed, arrivals);
    PartlyIn(ring, k, i, doomed, arrivals);
    if name in doomed {
      Delete(name, full, |full| - |ring| + k);
    }
  }

  /** A walk with the next element saved visits the elements that were in the list when it
      began, once each and in order, although the visits put any number of elements at the
      front of the list, deleted ones again among them, and delete the element visited. */
  method Walk(head: Node, doomed: set<Node>, arrivals: map<Node, seq<Node>>, ghost ring: seq<Node>)
    returns (visited: seq<Node>)
    requires Ring(ring) && head == ring[0] && MayCome(ring, doomed, arrivals)
    modifies ring, Newcomers(arrivals)
    ensures visited == ring[1..]
    ensures Ring([head] + Arrived(ring[1..], arrivals) + Survivors(ring[1..], doomed))
  {
    hide Midway, MayCome, Newcomers;
    visited := [];
    ghost var k := 1;
    MidwayEnds(ring, doomed, arrivals);
    assert Linked(head, After(ring, 0));
    NextIs(ring, 1, doomed, arrivals);
    var name := head.next;
    var next := name.next;
    while name != head
      invariant 1 <= k <= |ring| && visited == ring[1..k]
      invariant Ring(Midway(ring, k, doomed, arrivals))
      invariant name == if k < |ring| then ring[k] else head
      invariant name != head ==> next == if k + 1 < |ring| then ring[k + 1] else head
      decreases |ring| - k
    {
      Visit(head, name, doomed, arrivals, ring, k);
      visited := visited + [name];
      name := next;
      k := k + 1;
      NextIs(ring, k, doomed, arrivals);
      next := name.next;
    }
  }

  lemma NextIs(ring: seq<Node>, k: nat, doomed: set<Node>, arrivals: map<Node, seq<Node>>)
    requires 1 <= k <= |ring| && Ring(Midway(ring, k, doomed, arrivals))
    ensures ring[0].next != null
    ensures k < |ring| ==> ring[k].next == if k + 1 < |ring| then ring[k + 1] else ring[0]
  {
    var now := Midway(ring, k, doomed, arrivals);
    assert Linked(now[0], After(now, 0));
    if k < |ring| {
      var i := |now| - |ring| + k;
      assert now[i] == ring[k] && Linked(now[i], After(now, i));
    }
  }
}
