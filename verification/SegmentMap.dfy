// The segments in use as a map from base page to segment: what the layers above the
// allocator see of it.

module SegmentMap {
  import opened Common
  import opened Tiling
  import opened Segments

  /** The segments in use by base. */
  ghost function Table(s: seq<Segment>): (t: map<nat, Segment>)
    ensures forall b :: b in t ==> t[b] in InUse(s) && t[b].base == b
    ensures forall x :: x in InUse(s) ==> x.base in t
  {
    map b | b in Bases(s) :: Named(s, b)
  }

  ghost function Bases(s: seq<Segment>): set<nat> {
    set x | x in InUse(s) :: x.base
  }

  ghost function Named(s: seq<Segment>, b: nat): (x: Segment)
    requires b in Bases(s)
    ensures x in InUse(s) && x.base == b
  {
    var x :| x in InUse(s) && x.base == b;
    x
  }

  /** In a tiled list the base determines the segment. */
  lemma TableAt(lo: nat, hi: nat, s: seq<Segment>, x: Segment)
    requires Inv(lo, hi, s) && x in InUse(s)
    ensures x.base in Table(s) && Table(s)[x.base] == x
  {
    var y := Table(s)[x.base];
    var i :| 0 <= i < |s| && s[i] == x;
    var j :| 0 <= j < |s| && s[j] == y;
    TilesBaseUnique(lo, hi, s, i, j);
  }

  lemma TableIndex(lo: nat, hi: nat, s: seq<Segment>, b: nat)
    requires Inv(lo, hi, s) && b in Table(s)
    ensures IndexOf(s, b, 0) < |s| && s[IndexOf(s, b, 0)] == Table(s)[b]
  {
    var j :| 0 <= j < |s| && s[j] == Table(s)[b];
    TilesBaseUnique(lo, hi, s, IndexOf(s, b, 0), j);
  }

  lemma TableExt(lo: nat, hi: nat, s: seq<Segment>, t: map<nat, Segment>)
    requires Inv(lo, hi, s)
    requires forall b :: b in t ==> t[b] in InUse(s) && t[b].base == b
    requires forall x :: x in InUse(s) ==> x.base in t
    ensures Table(s) == t
  {
    forall b | b in t ensures Table(s)[b] == t[b] {
      TableAt(lo, hi, s, t[b]);
    }
  }

  /** Every segment in use has pages of its own, inside lo..hi. */
  lemma TableApart(lo: nat, hi: nat, s: seq<Segment>, b: nat, c: nat, p: nat)
    requires Inv(lo, hi, s) && b in Table(s) && c in Table(s)
    requires Table(s)[b].Covers(p) && Table(s)[c].Covers(p)
    ensures b == c
  {
    var i :| 0 <= i < |s| && s[i] == Table(s)[b];
    var j :| 0 <= j < |s| && s[j] == Table(s)[c];
    TilesDisjoint(lo, hi, s, i, j, p);
  }

  lemma TableBounds(lo: nat, hi: nat, s: seq<Segment>, b: nat)
    requires Inv(lo, hi, s) && b in Table(s)
    ensures lo <= b && Table(s)[b].size > 0 && Table(s)[b].End() <= hi && Table(s)[b].tag.refs > 0
  {
    var i :| 0 <= i < |s| && s[i] == Table(s)[b];
    TilesAt(lo, hi, s, i);
  }

  /** Allocation adds one entry, apart from all others. */
  lemma AllocTable(lo: nat, hi: nat, s: seq<Segment>, n: nat)
    requires Inv(lo, hi, s) && n > 0 && Alloc(s, n).1.Some?
    ensures var (s', r) := Alloc(s, n);
            && Inv(lo, hi, s')
            && r.value.size == n && r.value.tag.refs == 1
            && r.value.base !in Table(s)
            && Table(s') == Table(s)[r.value.base := r.value]
  {
    AllocCorrect(lo, hi, s, n);
    var (s', r) := Alloc(s, n);
    var x := r.value;
    if x.base in Table(s) {
      assert UnitFree(Unused, s, x.base);
      TableBounds(lo, hi, s, x.base);
      BusyNotFree(Unused, lo, hi, s, Table(s)[x.base], x.base);
    }
    TableExt(lo, hi, s', Table(s)[x.base := x]);
  }

  function WithRefs(x: Segment, refs: nat): Segment {
    x.(tag := x.tag.(refs := refs))
  }

  function WithCow(x: Segment, cow: bool): Segment {
    x.(tag := x.tag.(cow := cow))
  }

  /** A release takes one reference, and the entry itself at the last one. */
  lemma ReleaseTable(lo: nat, hi: nat, s: seq<Segment>, b: nat)
    requires Inv(lo, hi, s) && b in Table(s)
    ensures Inv(lo, hi, Release(s, b))
    ensures var x := Table(s)[b];
            Table(Release(s, b)) == if x.tag.refs == 1 then Table(s) - {b}
                                    else Table(s)[b := WithRefs(x, x.tag.refs - 1)]
  {
    ReleaseCorrect(lo, hi, s, b);
    var x := Table(s)[b];
    var s' := Release(s, b);
    assert InUse(s') == InUse(s) - {x} + InUse([DropRef(x)]);
    forall y | y in InUse(s) && y.base == b ensures y == x {
      TableAt(lo, hi, s, y);
    }
    if x.tag.refs == 1 {
      TableExt(lo, hi, s', Table(s) - {b});
    } else {
      assert InUse([DropRef(x)]) == {DropRef(x)};
      TableExt(lo, hi, s', Table(s)[b := WithRefs(x, x.tag.refs - 1)]);
    }
  }

  /** Rewrites the record of the segment that begins at `b`. */
  function Retag(s: seq<Segment>, b: nat, tag: SegInfo): seq<Segment> {
    var i := IndexOf(s, b, 0);
    if i == |s| then s else s[i := s[i].(tag := tag)]
  }

  lemma RetagTable(lo: nat, hi: nat, s: seq<Segment>, b: nat, tag: SegInfo)
    requires Inv(lo, hi, s) && b in Table(s) && tag.refs > 0
    ensures Inv(lo, hi, Retag(s, b, tag))
    ensures Table(Retag(s, b, tag)) == Table(s)[b := Table(s)[b].(tag := tag)]
  {
    var x := Table(s)[b];
    var j :| 0 <= j < |s| && s[j] == x;
    var i := IndexOf(s, b, 0);
    TilesBaseUnique(lo, hi, s, i, j);
    var s' := Retag(s, b, tag);
    RetagTiles(lo, hi, s, i, tag);
    BusyUpdate(Unused, lo, hi, s, i, s'[i]);
    assert InUse([s'[i]]) == {s'[i]};
    forall y | y in InUse(s) && y.base == b ensures y == x {
      TableAt(lo, hi, s, y);
    }
    TableExt(lo, hi, s', Table(s)[b := x.(tag := tag)]);
  }
}
