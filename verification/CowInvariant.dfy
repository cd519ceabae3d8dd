// What every step of the virtual memory keeps: reference counts count mappings, page table
// entries point into the segment of their mapping, and only an unshared segment is writable.

module CowInvariant {
  import opened Tiling
  import opened SegmentMap
  import opened VirtualMemory
  import Seg = Segments
  import Reg = Regions

  // ----- Counting references -----

  function CountIn(ms: seq<Mapping>, b: nat): nat
    decreases |ms|
  {
    if ms == [] then 0 else (if ms[0].phy == b then 1 else 0) + CountIn(ms[1..], b)
  }

  /** How many mappings of all spaces point at the segment at `b`. */
  function Count(spaces: seq<Space>, b: nat): nat
    decreases |spaces|
  {
    if spaces == [] then 0 else CountIn(spaces[0].mappings, b) + Count(spaces[1..], b)
  }

  lemma {:induction false} CountInAppend(ms: seq<Mapping>, ns: seq<Mapping>, b: nat)
    ensures CountIn(ms + ns, b) == CountIn(ms, b) + CountIn(ns, b)
    decreases |ms|
  {
    if ms == [] {
      assert ms + ns == ns;
    } else {
      CountInAppend(ms[1..], ns, b);
      assert (ms + ns)[1..] == ms[1..] + ns;
    }
  }

  lemma {:induction false} CountInReversed(ms: seq<Mapping>, b: nat)
    ensures CountIn(Reversed(ms), b) == CountIn(ms, b)
    decreases |ms|
  {
    if ms != [] {
      CountInReversed(ms[1..], b);
      CountInAppend(Reversed(ms[1..]), [ms[0]], b);
    }
  }

  lemma CountInSplit(ms: seq<Mapping>, i: nat, b: nat)
    requires i < |ms|
    ensures CountIn(ms, b) == CountIn(Without(ms, i), b) + (if ms[i].phy == b then 1 else 0)
  {
    assert ms == ms[..i] + ([ms[i]] + ms[i + 1..]);
    CountInAppend(ms[..i], [ms[i]] + ms[i + 1..], b);
    CountInAppend([ms[i]], ms[i + 1..], b);
    CountInAppend(ms[..i], ms[i + 1..], b);
  }

  lemma CountInUpdate(ms: seq<Mapping>, i: nat, m: Mapping, b: nat)
    requires i < |ms|
    ensures CountIn(ms[i := m], b) == CountIn(ms, b) - (if ms[i].phy == b then 1 else 0) + (if m.phy == b then 1 else 0)
  {
    CountInSplit(ms, i, b);
    CountInSplit(ms[i := m], i, b);
    assert Without(ms[i := m], i) == Without(ms, i);
  }

  lemma {:induction false} CountAppend(xs: seq<Space>, ys: seq<Space>, b: nat)
    ensures Count(xs + ys, b) == Count(xs, b) + Count(ys, b)
    decreases |xs|
  {
    if xs == [] {
      assert xs + ys == ys;
    } else {
      CountAppend(xs[1..], ys, b);
      assert (xs + ys)[1..] == xs[1..] + ys;
    }
  }

  lemma {:induction false} CountUpdate(spaces: seq<Space>, a: nat, sp: Space, b: nat)
    requires a < |spaces|
    ensures Count(spaces[a := sp], b)
            == Count(spaces, b) - CountIn(spaces[a].mappings, b) + CountIn(sp.mappings, b)
    ensures CountIn(spaces[a].mappings, b) <= Count(spaces, b)
    decreases |spaces|
  {
    if a > 0 {
      CountUpdate(spaces[1..], a - 1, sp, b);
      assert spaces[a := sp][1..] == spaces[1..][a - 1 := sp];
    }
  }

  /** A segment referenced once is referenced by one mapping of one space. */
  lemma OnlyOneMapping(spaces: seq<Space>, a: nat, i: nat, c: nat, j: nat, b: nat)
    requires Count(spaces, b) <= 1
    requires a < |spaces| && i < |spaces[a].mappings| && spaces[a].mappings[i].phy == b
    requires c < |spaces| && j < |spaces[c].mappings| && spaces[c].mappings[j].phy == b
    ensures a == c && i == j
  {
    var ms, ns := spaces[a].mappings, spaces[c].mappings;
    CountInSplit(ms, i, b);
    CountUpdate(spaces, a, DEAD, b);
    if a != c {
      CountInSplit(ns, j, b);
      CountUpdate(spaces[a := DEAD], c, DEAD, b);
    } else if i != j {
      var k := if j < i then j else j - 1;
      assert Without(ms, i)[k] == ms[j];
      CountInSplit(Without(ms, i), k, b);
    }
  }

  // ----- The invariant -----

  /** The entry of page `v` of mapping `m`, whose segment is `x`. */
  ghost predicate EntryOk(x: Seg.Segment, ptes: map<nat, Pte>, m: Mapping, v: nat)
    requires m.Covers(v)
  {
    && v in ptes
    && ptes[v].frame == m.phy + (v - m.virt)
    && (ptes[v].write ==> m.write && x.tag.refs == 1)
    && (m.write && !ptes[v].write ==> x.tag.cow)
  }

  ghost predicate MappingOk(t: map<nat, Seg.Segment>, ptes: map<nat, Pte>, m: Mapping) {
    && m.pages > 0
    && m.phy in t
    && t[m.phy].size == m.pages
    && forall v: nat :: m.Covers(v) ==> EntryOk(t[m.phy], ptes, m, v)
  }

  ghost predicate Apart(m: Mapping, n: Mapping) {
    forall v: nat :: !(m.Covers(v) && n.Covers(v))
  }

  function RangeOf(m: Mapping): Reg.Region {
    Span(m.virt, m.pages, true)
  }

  function Ranges(ms: seq<Mapping>): set<Reg.Region> {
    set m | m in ms :: RangeOf(m)
  }

  ghost predicate AllApart(ms: seq<Mapping>) {
    forall i, j :: 0 <= i < j < |ms| ==> Apart(ms[i], ms[j])
  }

  ghost predicate AllOk(t: map<nat, Seg.Segment>, ptes: map<nat, Pte>, ms: seq<Mapping>) {
    forall i :: 0 <= i < |ms| ==> MappingOk(t, ptes, ms[i])
  }

  /** No page has an entry but those of the mappings. */
  ghost predicate AllCovered(ptes: map<nat, Pte>, ms: seq<Mapping>) {
    forall v :: v in ptes ==> Locate(ms, v, 0) < |ms|
  }

  ghost predicate SpaceOk(l: Layout, t: map<nat, Seg.Segment>, sp: Space) {
    && Tiles(l.userBegin, l.kernelBegin, sp.regions)
    && Ranges(sp.mappings) <= Reg.Mapped(sp.regions)
    && AllApart(sp.mappings)
    && AllOk(t, sp.ptes, sp.mappings)
    && AllCovered(sp.ptes, sp.mappings)
  }

  /** The kernel itself holds one reference to each segment in `pinned`. */
  ghost predicate RefsOk(t: map<nat, Seg.Segment>, spaces: seq<Space>, pinned: set<nat>) {
    && pinned <= t.Keys
    && forall b :: b in t ==> t[b].tag.refs == Count(spaces, b) + if b in pinned then 1 else 0
  }

  ghost predicate Inv(l: Layout, st: State, pinned: set<nat>) {
    && 0 < l.userBegin < l.kernelBegin
    && Seg.Inv(l.lo, l.hi, st.segs)
    && l.hi <= |st.mem|
    && (forall a :: 0 <= a < |st.spaces| && !st.spaces[a].alive ==> st.spaces[a] == DEAD)
    && (forall a :: 0 <= a < |st.spaces| && st.spaces[a].alive ==> SpaceOk(l, Table(st.segs), st.spaces[a]))
    && RefsOk(Table(st.segs), st.spaces, pinned)
  }

  /** The segment at `b` keeps its size, stays unshared if it was and marked if it was. */
  ghost predicate Stable(t: map<nat, Seg.Segment>, t': map<nat, Seg.Segment>, b: nat) {
    && b in t && b in t'
    && t'[b].size == t[b].size
    && (t[b].tag.refs == 1 ==> t'[b].tag.refs == 1)
    && (t[b].tag.cow ==> t'[b].tag.cow)
  }

  /** A mapping stays in order while its segment is stable. */
  lemma MappingStable(t: map<nat, Seg.Segment>, t': map<nat, Seg.Segment>, ptes: map<nat, Pte>, m: Mapping)
    requires MappingOk(t, ptes, m) && Stable(t, t', m.phy)
    ensures MappingOk(t', ptes, m)
  {
    forall v: nat | m.Covers(v) ensures EntryOk(t'[m.phy], ptes, m, v) {
      assert EntryOk(t[m.phy], ptes, m, v);
    }
  }

  /** Entries of other pages do not matter to a mapping. */
  lemma EntriesElsewhere(t: map<nat, Seg.Segment>, t': map<nat, Seg.Segment>, ptes: map<nat, Pte>, ptes': map<nat, Pte>,
                         m: Mapping)
    requires MappingOk(t, ptes, m) && m.phy in t' && t'[m.phy] == t[m.phy]
    requires forall v: nat :: m.Covers(v) && v in ptes ==> v in ptes' && ptes'[v] == ptes[v]
    ensures MappingOk(t', ptes', m)
  {
    forall v: nat | m.Covers(v) ensures EntryOk(t'[m.phy], ptes', m, v) {
      assert EntryOk(t[m.phy], ptes, m, v);
    }
  }

  lemma WithEntriesOk(t: map<nat, Seg.Segment>, t': map<nat, Seg.Segment>, ptes: map<nat, Pte>, m: Mapping, n: Mapping)
    requires MappingOk(t, ptes, n) && n.phy in t' && t'[n.phy] == t[n.phy] && Apart(m, n)
    ensures MappingOk(t', WithEntries(ptes, m), n)
  {
    assert forall v: nat :: n.Covers(v) ==> !m.Covers(v);
    EntriesElsewhere(t, t', ptes, WithEntries(ptes, m), n);
  }

  lemma WithoutEntriesOk(t: map<nat, Seg.Segment>, ptes: map<nat, Pte>, m: Mapping, n: Mapping)
    requires MappingOk(t, ptes, n) && Apart(m, n)
    ensures MappingOk(t, WithoutEntries(ptes, m), n)
  {
    assert forall v: nat :: n.Covers(v) ==> !m.Covers(v);
    EntriesElsewhere(t, t, ptes, WithoutEntries(ptes, m), n);
  }

  /** The entries written for a mapping whose segment is its own. */
  lemma OwnEntriesOk(t: map<nat, Seg.Segment>, ptes: map<nat, Pte>, m: Mapping)
    requires m.pages > 0 && m.phy in t && t[m.phy].size == m.pages && t[m.phy].tag.refs == 1
    ensures MappingOk(t, WithEntries(ptes, m), m)
  {
  }

  lemma ApartSymmetric(m: Mapping, n: Mapping)
    requires Apart(m, n)
    ensures Apart(n, m)
  {
  }

  /** The mapping that covers a page is found. */
  lemma LocateCovers(ms: seq<Mapping>, v: nat, k: nat)
    requires k < |ms| && ms[k].Covers(v)
    ensures Locate(ms, v, 0) < |ms|
  {
  }

  lemma SpaceStable(l: Layout, t: map<nat, Seg.Segment>, t': map<nat, Seg.Segment>, sp: Space)
    requires SpaceOk(l, t, sp)
    requires forall i :: 0 <= i < |sp.mappings| ==> Stable(t, t', sp.mappings[i].phy)
    ensures SpaceOk(l, t', sp)
  {
    forall i | 0 <= i < |sp.mappings| ensures MappingOk(t', sp.ptes, sp.mappings[i]) {
      MappingStable(t, t', sp.ptes, sp.mappings[i]);
    }
  }

  /** The segment of a mapping, and the reference it holds. */
  lemma MappingCounted(l: Layout, st: State, pinned: set<nat>, a: nat, i: nat)
    requires Inv(l, st, pinned) && Alive(st, a) && i < |st.spaces[a].mappings|
    ensures var b := st.spaces[a].mappings[i].phy;
            && b in Table(st.segs)
            && Table(st.segs)[b].size == st.spaces[a].mappings[i].pages
            && 1 <= Count(st.spaces, b) <= Table(st.segs)[b].tag.refs
  {
    var b := st.spaces[a].mappings[i].phy;
    assert MappingOk(Table(st.segs), st.spaces[a].ptes, st.spaces[a].mappings[i]);
    CountInSplit(st.spaces[a].mappings, i, b);
    CountUpdate(st.spaces, a, DEAD, b);
  }

  /** How the references change when space `a` becomes `sp`. */
  ghost predicate RefsFollow(t': map<nat, Seg.Segment>, spaces: seq<Space>, a: nat, sp: Space, pinned: set<nat>)
    requires a < |spaces|
  {
    && pinned <= t'.Keys
    && forall b :: b in t' ==>
         t'[b].tag.refs + CountIn(spaces[a].mappings, b)
         == Count(spaces, b) + CountIn(sp.mappings, b) + if b in pinned then 1 else 0
  }

  /** Replacing one space keeps the invariant when the new space is in order, the segments
      of all others are stable and the references follow. */
  lemma ReplaceSpaceAndHolds(l: Layout, st: State, pinned: set<nat>, a: nat, st': State, pinned': set<nat>)
    requires Inv(l, st, pinned) && a < |st.spaces|
    requires Seg.Inv(l.lo, l.hi, st'.segs) && l.hi <= |st'.mem|
    requires |st'.spaces| == |st.spaces| && st'.spaces == st.spaces[a := st'.spaces[a]]
    requires if st'.spaces[a].alive then SpaceOk(l, Table(st'.segs), st'.spaces[a]) else st'.spaces[a] == DEAD
    requires forall c, i :: 0 <= c < |st.spaces| && c != a && 0 <= i < |st.spaces[c].mappings| ==>
               Stable(Table(st.segs), Table(st'.segs), st.spaces[c].mappings[i].phy)
    requires RefsFollow(Table(st'.segs), st.spaces, a, st'.spaces[a], pinned')
    ensures Inv(l, st', pinned')
  {
    var t, t' := Table(st.segs), Table(st'.segs);
    forall c | 0 <= c < |st'.spaces| && st'.spaces[c].alive ensures SpaceOk(l, t', st'.spaces[c]) {
      if c != a { SpaceStable(l, t, t', st.spaces[c]); }
    }
    forall b | b in t' ensures t'[b].tag.refs == Count(st'.spaces, b) + if b in pinned' then 1 else 0 {
      CountUpdate(st.spaces, a, st'.spaces[a], b);
    }
  }

  lemma ReplaceSpaceKeepsInv(l: Layout, st: State, pinned: set<nat>, a: nat, st': State)
    requires Inv(l, st, pinned) && a < |st.spaces|
    requires Seg.Inv(l.lo, l.hi, st'.segs) && l.hi <= |st'.mem|
    requires |st'.spaces| == |st.spaces| && st'.spaces == st.spaces[a := st'.spaces[a]]
    requires if st'.spaces[a].alive then SpaceOk(l, Table(st'.segs), st'.spaces[a]) else st'.spaces[a] == DEAD
    requires forall c, i :: 0 <= c < |st.spaces| && c != a && 0 <= i < |st.spaces[c].mappings| ==>
               Stable(Table(st.segs), Table(st'.segs), st.spaces[c].mappings[i].phy)
    requires RefsFollow(Table(st'.segs), st.spaces, a, st'.spaces[a], pinned)
    ensures Inv(l, st', pinned)
  {
    hide Inv, Seg.Inv, SpaceOk, Stable, RefsFollow;
    ReplaceSpaceAndHolds(l, st, pinned, a, st', pinned);
  }
}
