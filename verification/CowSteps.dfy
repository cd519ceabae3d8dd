// Every step of the virtual memory keeps the invariant.

module CowSteps {
  import opened Common
  import opened Tiling
  import opened SegmentMap
  import opened VirtualMemory
  import opened CowInvariant
  import Seg = Segments
  import Reg = Regions

  // ----- Unused segments are not counted -----

  lemma {:induction false} NoneIn(ms: seq<Mapping>, b: nat)
    requires forall i :: 0 <= i < |ms| ==> ms[i].phy != b
    ensures CountIn(ms, b) == 0
    decreases |ms|
  {
    if ms != [] { NoneIn(ms[1..], b); }
  }

  lemma {:induction false} NoneInAny(spaces: seq<Space>, b: nat)
    requires forall a, i :: 0 <= a < |spaces| && 0 <= i < |spaces[a].mappings| ==> spaces[a].mappings[i].phy != b
    ensures Count(spaces, b) == 0
    decreases |spaces|
  {
    if spaces != [] {
      NoneIn(spaces[0].mappings, b);
      NoneInAny(spaces[1..], b);
    }
  }

  lemma FreshUncounted(l: Layout, st: State, pinned: set<nat>, b: nat)
    requires Inv(l, st, pinned) && b !in Table(st.segs)
    ensures Count(st.spaces, b) == 0
  {
    forall a, i | 0 <= a < |st.spaces| && 0 <= i < |st.spaces[a].mappings| ensures st.spaces[a].mappings[i].phy != b {
      assert st.spaces[a].alive;
      MappingCounted(l, st, pinned, a, i);
    }
    NoneInAny(st.spaces, b);
  }

  // ----- Mapping -----

  lemma ReservedApart(l: Layout, t: map<nat, Seg.Segment>, sp: Space, at: nat, n: nat, j: nat)
    requires SpaceOk(l, t, sp) && j < |sp.mappings|
    requires AllFree(Reg.Unmapped, sp.regions, at, n)
    ensures Apart(Mapping(at, n, 0, false), sp.mappings[j])
  {
    var m := sp.mappings[j];
    assert RangeOf(m) in Reg.Mapped(sp.regions);
    forall v: nat | Mapping(at, n, 0, false).Covers(v) && m.Covers(v) ensures false {
      assert UnitFree(Reg.Unmapped, sp.regions, v);
      BusyNotFree(Reg.Unmapped, l.userBegin, l.kernelBegin, sp.regions, RangeOf(m), v);
    }
  }

  /** A mapping added in front of the others, at a range and to a segment of its own. */
  lemma AddMappingOk(l: Layout, t: map<nat, Seg.Segment>, sp: Space, m: Mapping, x: Seg.Segment,
                     regions: seq<Reg.Region>)
    requires SpaceOk(l, t, sp)
    requires m.phy !in t && x.size == m.pages > 0 && x.tag.refs == 1
    requires forall j :: 0 <= j < |sp.mappings| ==> Apart(m, sp.mappings[j])
    requires Tiles(l.userBegin, l.kernelBegin, regions)
    requires Reg.Mapped(regions) == Reg.Mapped(sp.regions) + {RangeOf(m)}
    ensures SpaceOk(l, t[m.phy := x], Space(true, regions, [m] + sp.mappings, WithEntries(sp.ptes, m)))
  {
    var t', ms, ptes := t[m.phy := x], [m] + sp.mappings, WithEntries(sp.ptes, m);
    assert Ranges(ms) == Ranges(sp.mappings) + {RangeOf(m)};
    forall i | 0 <= i < |ms| ensures MappingOk(t', ptes, ms[i]) {
      if i > 0 {
        assert MappingOk(t, sp.ptes, sp.mappings[i - 1]);
        WithEntriesOk(t, t', sp.ptes, m, sp.mappings[i - 1]);
      } else {
        OwnEntriesOk(t', sp.ptes, m);
      }
    }
    AddCovered(sp.ptes, sp.mappings, m);
  }

  lemma AddCovered(ptes: map<nat, Pte>, ms: seq<Mapping>, m: Mapping)
    requires AllCovered(ptes, ms)
    ensures AllCovered(WithEntries(ptes, m), [m] + ms)
  {
    var ns := [m] + ms;
    forall v | v in WithEntries(ptes, m) ensures Locate(ns, v, 0) < |ns| {
      if v in ptes {
        LocateCovers(ns, v, Locate(ms, v, 0) + 1);
      } else {
        LocateCovers(ns, v, 0);
      }
    }
  }

  lemma MapFreshKeepsInv(l: Layout, st: State, pinned: set<nat>, a: nat, virt: nat, n: nat, write: bool)
    requires Inv(l, st, pinned) && MapFresh(st, a, virt, n, write).Some?
    ensures Inv(l, MapFresh(st, a, virt, n, write).value, pinned)
  {
    hide Reg.Reserve, Seg.Alloc, Seg.Inv, SpaceOk, WithEntries;
    var sp := st.spaces[a];
    var (regions, at) := Reg.Reserve(sp.regions, virt, n);
    var (segs, seg) := Seg.Alloc(st.segs, n);
    var x := seg.value;
    var t := Table(st.segs);
    AllocTable(l.lo, l.hi, st.segs, n);
    var m := Mapping(at.value, n, x.base, write);
    MapFreshSpace(l, t, sp, virt, n, m, x);
    var st' := MapFresh(st, a, virt, n, write).value;
    forall c, i | 0 <= c < |st.spaces| && c != a && 0 <= i < |st.spaces[c].mappings|
      ensures Stable(t, Table(segs), st.spaces[c].mappings[i].phy)
    {
      assert st.spaces[c].alive;
      MappingCounted(l, st, pinned, c, i);
    }
    FreshUncounted(l, st, pinned, x.base);
    forall b | b in Table(segs)
      ensures Table(segs)[b].tag.refs + CountIn(sp.mappings, b)
              == Count(st.spaces, b) + CountIn(st'.spaces[a].mappings, b) + if b in pinned then 1 else 0
    {
      CountInAppend([m], sp.mappings, b);
    }
    ReplaceSpaceKeepsInv(l, st, pinned, a, st');
  }

  lemma MapFreshSpace(l: Layout, t: map<nat, Seg.Segment>, sp: Space, virt: nat, n: nat, m: Mapping, x: Seg.Segment)
    requires SpaceOk(l, t, sp) && n > 0
    requires Reg.Reserve(sp.regions, virt, n).1 == Some(m.virt) && m.pages == n
    requires m.phy !in t && x.size == n && x.tag.refs == 1
    ensures SpaceOk(l, t[m.phy := x], Space(true, Reg.Reserve(sp.regions, virt, n).0,
                                            [m] + sp.mappings, WithEntries(sp.ptes, m)))
  {
    Reg.ReserveCorrect(l.userBegin, l.kernelBegin, sp.regions, virt, n);
    forall j | 0 <= j < |sp.mappings| ensures Apart(m, sp.mappings[j]) {
      ReservedApart(l, t, sp, m.virt, n, j);
      assert forall v: nat :: m.Covers(v) ==> Mapping(m.virt, n, 0, false).Covers(v);
    }
    AddMappingOk(l, t, sp, m, x, Reg.Reserve(sp.regions, virt, n).0);
  }

  /** A mapping that fails for want of frames keeps the invariant. */
  lemma MapFailedKeepsInv(l: Layout, st: State, pinned: set<nat>, a: nat, virt: nat, n: nat)
    requires Inv(l, st, pinned)
    ensures Inv(l, MapFailed(st, a, virt, n), pinned)
  {
    hide Reg.Reserve, Reg.Release, Seg.Inv, SpaceOk, Stable;
    if Alive(st, a) && n > 0 && Reg.Reserve(st.spaces[a].regions, virt, n).1.Some? {
      var sp, t := st.spaces[a], Table(st.segs);
      MapFailedSpace(l, t, sp, virt, n);
      forall c, i | 0 <= c < |st.spaces| && c != a && 0 <= i < |st.spaces[c].mappings|
        ensures Stable(t, t, st.spaces[c].mappings[i].phy)
      {
        assert st.spaces[c].alive;
        SelfStable(l, st, pinned, c, i);
      }
      ReplaceSpaceKeepsInv(l, st, pinned, a, MapFailed(st, a, virt, n));
    }
  }

  lemma SelfStable(l: Layout, st: State, pinned: set<nat>, c: nat, i: nat)
    requires Inv(l, st, pinned) && Alive(st, c) && i < |st.spaces[c].mappings|
    ensures Stable(Table(st.segs), Table(st.segs), st.spaces[c].mappings[i].phy)
  {
    MappingCounted(l, st, pinned, c, i);
  }

  lemma MapFailedSpace(l: Layout, t: map<nat, Seg.Segment>, sp: Space, virt: nat, n: nat)
    requires SpaceOk(l, t, sp) && n > 0 && Reg.Reserve(sp.regions, virt, n).1.Some?
    ensures var (regions, at) := Reg.Reserve(sp.regions, virt, n);
            && SpaceOk(l, t, sp.(regions := regions))
            && SpaceOk(l, t, sp.(regions := Reg.Release(regions, at.value)))
  {
    hide Reg.Reserve, Reg.Release, Tiles, AllOk, AllApart, AllCovered;
    var (regions, at) := Reg.Reserve(sp.regions, virt, n);
    Reg.ReserveCorrect(l.userBegin, l.kernelBegin, sp.regions, virt, n);
    Reg.ReleaseCorrect(l.userBegin, l.kernelBegin, regions, at.value);
    forall x | x in Ranges(sp.mappings) ensures x.base != at.value {
      RangeStartsElsewhere(l, t, sp, at.value, n, x);
    }
  }

  /** No mapping begins where free pages were found. */
  lemma RangeStartsElsewhere(l: Layout, t: map<nat, Seg.Segment>, sp: Space, at: nat, n: nat, x: Reg.Region)
    requires SpaceOk(l, t, sp) && n > 0 && AllFree(Reg.Unmapped, sp.regions, at, n) && x in Ranges(sp.mappings)
    ensures x.base != at
  {
    var m :| m in sp.mappings && x == RangeOf(m);
    var i :| 0 <= i < |sp.mappings| && sp.mappings[i] == m;
    assert MappingOk(t, sp.ptes, sp.mappings[i]);
    assert UnitFree(Reg.Unmapped, sp.regions, at);
    if x.base == at {
      BusyNotFree(Reg.Unmapped, l.userBegin, l.kernelBegin, sp.regions, x, at);
    }
  }

  lemma CreateKeepsInv(l: Layout, st: State, pinned: set<nat>)
    requires Inv(l, st, pinned)
    ensures Inv(l, Create(l, st), pinned)
  {
    var sp := FreshSpace(l);
    TilesOne(sp.regions[0]);
    AppendSpaceKeepsInv(l, st, pinned, Create(l, st), sp);
  }

  /** A space added at the end, to the segments as they are. */
  lemma AppendSpaceKeepsInv(l: Layout, st: State, pinned: set<nat>, st': State, sp: Space)
    requires Inv(l, st, pinned) && sp.mappings == [] && sp.alive
    requires st' == st.(spaces := st.spaces + [sp])
    requires SpaceOk(l, Table(st.segs), sp)
    ensures Inv(l, st', pinned)
  {
    forall b | b in Table(st.segs) ensures Count(st'.spaces, b) == Count(st.spaces, b) {
      CountAppend(st.spaces, [sp], b);
    }
  }

  // ----- Unmapping -----

  lemma RemoveMappingOk(l: Layout, t: map<nat, Seg.Segment>, sp: Space, i: nat)
    requires SpaceOk(l, t, sp) && i < |sp.mappings|
    ensures SpaceOk(l, t, Space(true, Reg.Release(sp.regions, sp.mappings[i].virt),
                                Without(sp.mappings, i), WithoutEntries(sp.ptes, sp.mappings[i])))
  {
    var m, ms, ns := sp.mappings[i], sp.mappings, Without(sp.mappings, i);
    Reg.ReleaseCorrect(l.userBegin, l.kernelBegin, sp.regions, m.virt);
    hide Tiles, AllCovered;
    forall k | 0 <= k < |ns|
      ensures MappingOk(t, WithoutEntries(sp.ptes, m), ns[k]) && ns[k].virt != m.virt
    {
      RemoveOther(t, sp.ptes, ms, i, if k < i then k else k + 1);
    }
    RemoveRanges(ms, i);
    RemoveApart(ms, i);
    RemoveCovered(sp.ptes, ms, i);
  }

  lemma RemoveOther(t: map<nat, Seg.Segment>, ptes: map<nat, Pte>, ms: seq<Mapping>, i: nat, j: nat)
    requires AllApart(ms) && AllOk(t, ptes, ms) && i < |ms| && j < |ms| && i != j
    ensures MappingOk(t, WithoutEntries(ptes, ms[i]), ms[j]) && ms[j].virt != ms[i].virt
  {
    assert MappingOk(t, ptes, ms[i]) && MappingOk(t, ptes, ms[j]);
    if j < i {
      ApartSymmetric(ms[j], ms[i]);
    }
    assert ms[i].Covers(ms[i].virt) && ms[j].Covers(ms[j].virt);
    WithoutEntriesOk(t, ptes, ms[i], ms[j]);
  }

  lemma RemoveApart(ms: seq<Mapping>, i: nat)
    requires AllApart(ms) && i < |ms|
    ensures AllApart(Without(ms, i))
  {
    hide Apart;
    var ns := Without(ms, i);
    forall j, k | 0 <= j < k < |ns| ensures Apart(ns[j], ns[k]) {
      assert ns[j] == ms[if j < i then j else j + 1] && ns[k] == ms[if k < i then k else k + 1];
    }
  }

  lemma RemoveCovered(ptes: map<nat, Pte>, ms: seq<Mapping>, i: nat)
    requires AllCovered(ptes, ms) && i < |ms|
    ensures AllCovered(WithoutEntries(ptes, ms[i]), Without(ms, i))
  {
    var ns := Without(ms, i);
    forall v | v in WithoutEntries(ptes, ms[i]) ensures Locate(ns, v, 0) < |ns| {
      var k := Locate(ms, v, 0);
      LocateCovers(ns, v, if k < i then k else k - 1);
    }
  }

  lemma RemoveRanges(ms: seq<Mapping>, i: nat)
    requires i < |ms|
    requires forall k :: 0 <= k < |Without(ms, i)| ==> Without(ms, i)[k].virt != ms[i].virt
    ensures Ranges(Without(ms, i)) == set x | x in Ranges(ms) && x.base != ms[i].virt
  {
    var ns := Without(ms, i);
    assert ms == ms[..i] + ([ms[i]] + ms[i + 1..]);
    forall m | m in ms && m.virt != ms[i].virt ensures m in ns {}
    forall m | m in ns ensures m in ms && m.virt != ms[i].virt {
      var k :| 0 <= k < |ns| && ns[k] == m;
    }
    forall x | x in Ranges(ns) ensures x in Ranges(ms) && x.base != ms[i].virt {
      var m :| m in ns && x == RangeOf(m);
      assert m in ms;
    }
    forall x | x in Ranges(ms) && x.base != ms[i].virt ensures x in Ranges(ns) {
      var m :| m in ms && x == RangeOf(m);
      assert m in ns;
    }
  }

  /** The segments of all other mappings are stable when mapping `i` of space `a` gives up
      its reference. */
  lemma OthersStable(l: Layout, st: State, pinned: set<nat>, a: nat, i: nat, c: nat, j: nat)
    requires Inv(l, st, pinned) && Alive(st, a) && i < |st.spaces[a].mappings|
    requires c < |st.spaces| && j < |st.spaces[c].mappings| && (c != a || j != i)
    ensures Stable(Table(st.segs), Table(Seg.Release(st.segs, st.spaces[a].mappings[i].phy)),
                   st.spaces[c].mappings[j].phy)
  {
    var b := st.spaces[a].mappings[i].phy;
    assert st.spaces[c].alive;
    MappingCounted(l, st, pinned, a, i);
    MappingCounted(l, st, pinned, c, j);
    ReleaseTable(l.lo, l.hi, st.segs, b);
    if st.spaces[c].mappings[j].phy == b && Table(st.segs)[b].tag.refs == 1 {
      OnlyOneMapping(st.spaces, a, i, c, j, b);
    }
  }

  lemma UnmapKeepsInv(l: Layout, st: State, pinned: set<nat>, a: nat, virt: nat)
    requires Inv(l, st, pinned)
    ensures Inv(l, Unmap(st, a, virt), pinned)
  {
    hide Reg.Release, Seg.Release, Seg.Inv, SpaceOk, WithoutEntries, Without, RefsFollow, CountIn;
    if Alive(st, a) {
      var i := MappingAt(st.spaces[a].mappings, virt, 0);
      if i < |st.spaces[a].mappings| {
        var st' := Unmap(st, a, virt);
        MappingCounted(l, st, pinned, a, i);
        ReleaseTable(l.lo, l.hi, st.segs, st.spaces[a].mappings[i].phy);
        UnmapSpaceOk(l, st, pinned, a, i);
        forall c, j | 0 <= c < |st.spaces| && c != a && 0 <= j < |st.spaces[c].mappings|
          ensures Stable(Table(st.segs), Table(st'.segs), st.spaces[c].mappings[j].phy)
        {
          OthersStable(l, st, pinned, a, i, c, j);
        }
        UnmapRefs(l, st, pinned, a, i);
        assert RefsFollow(Table(st'.segs), st.spaces, a, st'.spaces[a], pinned) by {
          SameMappingsFollow(Table(st'.segs), st.spaces, a,
            st.spaces[a].(mappings := Without(st.spaces[a].mappings, i)), st'.spaces[a], pinned);
        }
        ReplaceSpaceKeepsInv(l, st, pinned, a, st');
      }
    }
  }

  lemma SameMappingsFollow(t: map<nat, Seg.Segment>, spaces: seq<Space>, a: nat, sp: Space, sp': Space,
                           pinned: set<nat>)
    requires a < |spaces| && RefsFollow(t, spaces, a, sp, pinned) && sp'.mappings == sp.mappings
    ensures RefsFollow(t, spaces, a, sp', pinned)
  {
  }

  /** The space without mapping `i`, over the segments that are left. */
  lemma UnmapSpaceOk(l: Layout, st: State, pinned: set<nat>, a: nat, i: nat)
    requires Inv(l, st, pinned) && Alive(st, a) && i < |st.spaces[a].mappings|
    ensures var sp := st.spaces[a];
            SpaceOk(l, Table(Seg.Release(st.segs, sp.mappings[i].phy)),
                    Space(true, Reg.Release(sp.regions, sp.mappings[i].virt),
                          Without(sp.mappings, i), WithoutEntries(sp.ptes, sp.mappings[i])))
  {
    hide Reg.Release, Seg.Release, Seg.Inv, SpaceOk, WithoutEntries, RefsOk, Stable;
    var ms, t, t' := st.spaces[a].mappings, Table(st.segs), Table(Seg.Release(st.segs, st.spaces[a].mappings[i].phy));
    RemoveMappingOk(l, t, st.spaces[a], i);
    var ns := Without(ms, i);
    forall k | 0 <= k < |ns| ensures Stable(t, t', ns[k].phy) {
      OthersStable(l, st, pinned, a, i, a, if k < i then k else k + 1);
    }
    SpaceStable(l, t, t', Space(true, Reg.Release(st.spaces[a].regions, ms[i].virt), ns,
                                WithoutEntries(st.spaces[a].ptes, ms[i])));
  }

  lemma UnmapRefs(l: Layout, st: State, pinned: set<nat>, a: nat, i: nat)
    requires Inv(l, st, pinned) && Alive(st, a) && i < |st.spaces[a].mappings|
    ensures var sp := st.spaces[a].(mappings := Without(st.spaces[a].mappings, i));
            RefsFollow(Table(Seg.Release(st.segs, st.spaces[a].mappings[i].phy)), st.spaces, a, sp, pinned)
  {
    hide Seg.Release, Seg.Inv, SpaceOk;
    var b := st.spaces[a].mappings[i].phy;
    MappingCounted(l, st, pinned, a, i);
    ReleaseTable(l.lo, l.hi, st.segs, b);
    forall c: nat ensures CountIn(st.spaces[a].mappings, c)
                          == CountIn(Without(st.spaces[a].mappings, i), c) + (if b == c then 1 else 0) {
      CountInSplit(st.spaces[a].mappings, i, c);
    }
  }

  // ----- The write fault -----

  /** Mapping `i` renewed: `m` covers the same pages and has segment `x` to itself. */
  lemma RenewMappingOk(l: Layout, t: map<nat, Seg.Segment>, sp: Space, i: nat, m: Mapping)
    requires i < |sp.mappings|
    requires Tiles(l.userBegin, l.kernelBegin, sp.regions) && Ranges(sp.mappings) <= Reg.Mapped(sp.regions)
    requires AllApart(sp.mappings) && AllCovered(sp.ptes, sp.mappings)
    requires forall j :: 0 <= j < |sp.mappings| && j != i ==> MappingOk(t, sp.ptes, sp.mappings[j])
    requires m == sp.mappings[i].(phy := m.phy)
    requires m.pages > 0 && m.phy in t && t[m.phy].size == m.pages && t[m.phy].tag.refs == 1
    ensures SpaceOk(l, t, sp.(mappings := sp.mappings[i := m], ptes := WithEntries(sp.ptes, m)))
  {
    hide Tiles, Ranges, WithEntries;
    var ms := sp.mappings[i := m];
    RenewRanges(sp.mappings, i, m);
    RenewApart(sp.mappings, i, m);
    RenewCovered(sp.ptes, sp.mappings, i, m);
    forall j | 0 <= j < |ms| ensures MappingOk(t, WithEntries(sp.ptes, m), ms[j]) {
      if j == i {
        OwnEntriesOk(t, sp.ptes, m);
      } else {
        if j < i {
          ApartSymmetric(ms[j], ms[i]);
        }
        WithEntriesOk(t, t, sp.ptes, m, ms[j]);
      }
    }
  }

  lemma RenewSpaceOk(l: Layout, t: map<nat, Seg.Segment>, t': map<nat, Seg.Segment>, sp: Space, i: nat, m: Mapping)
    requires SpaceOk(l, t, sp) && i < |sp.mappings|
    requires forall j :: 0 <= j < |sp.mappings| && j != i ==> Stable(t, t', sp.mappings[j].phy)
    requires m == sp.mappings[i].(phy := m.phy)
    requires m.phy in t' && t'[m.phy].size == m.pages && t'[m.phy].tag.refs == 1
    ensures SpaceOk(l, t', sp.(mappings := sp.mappings[i := m], ptes := WithEntries(sp.ptes, m)))
  {
    hide Tiles, Ranges, AllApart, AllCovered, WithEntries;
    MappingHasPages(l, t, sp, i);
    forall j | 0 <= j < |sp.mappings| && j != i ensures MappingOk(t', sp.ptes, sp.mappings[j]) {
      MappingStable(t, t', sp.ptes, sp.mappings[j]);
    }
    RenewMappingOk(l, t', sp, i, m);
  }

  lemma MappingHasPages(l: Layout, t: map<nat, Seg.Segment>, sp: Space, i: nat)
    requires SpaceOk(l, t, sp) && i < |sp.mappings|
    ensures sp.mappings[i].pages > 0
  {
    assert MappingOk(t, sp.ptes, sp.mappings[i]);
  }

  lemma RenewApart(ms: seq<Mapping>, i: nat, m: Mapping)
    requires AllApart(ms) && i < |ms| && m == ms[i].(phy := m.phy)
    ensures AllApart(ms[i := m])
  {
    var ns := ms[i := m];
    forall j, k | 0 <= j < k < |ns| ensures Apart(ns[j], ns[k]) {
      assert Apart(ms[j], ms[k]);
      assert forall v: nat :: (ns[j].Covers(v) <==> ms[j].Covers(v)) && (ns[k].Covers(v) <==> ms[k].Covers(v));
    }
  }

  lemma RenewCovered(ptes: map<nat, Pte>, ms: seq<Mapping>, i: nat, m: Mapping)
    requires AllCovered(ptes, ms) && i < |ms| && m == ms[i].(phy := m.phy)
    ensures AllCovered(WithEntries(ptes, m), ms[i := m])
  {
    var ns := ms[i := m];
    forall v | v in WithEntries(ptes, m) ensures Locate(ns, v, 0) < |ns| {
      if v in ptes {
        LocateCovers(ns, v, Locate(ms, v, 0));
      } else {
        LocateCovers(ns, v, i);
      }
    }
  }

  lemma RenewRanges(ms: seq<Mapping>, i: nat, m: Mapping)
    requires i < |ms| && m == ms[i].(phy := m.phy)
    ensures Ranges(ms[i := m]) == Ranges(ms)
  {
    var ns := ms[i := m];
    forall x | x in Ranges(ms) ensures x in Ranges(ns) {
      var n :| n in ms && x == RangeOf(n);
      var k :| 0 <= k < |ms| && ms[k] == n;
      assert ns[k] in ns && RangeOf(ns[k]) == x;
    }
    forall x | x in Ranges(ns) ensures x in Ranges(ms) {
      var n :| n in ns && x == RangeOf(n);
      var k :| 0 <= k < |ns| && ns[k] == n;
      assert ms[k] in ms && RangeOf(ms[k]) == x;
    }
  }

  /** The segments of other mappings do not notice that the last sharer loses its mark. */
  lemma UnmarkOther(l: Layout, st: State, pinned: set<nat>, a: nat, i: nat, c: nat, j: nat)
    requires Inv(l, st, pinned) && Alive(st, a) && i < |st.spaces[a].mappings|
    requires c < |st.spaces| && j < |st.spaces[c].mappings| && (c != a || j != i)
    requires var b := st.spaces[a].mappings[i].phy; b in Table(st.segs) && Table(st.segs)[b].tag.refs == 1
    ensures var t, b := Table(st.segs), st.spaces[a].mappings[i].phy;
            Stable(t, t[b := WithCow(t[b], false)], st.spaces[c].mappings[j].phy)
  {
    hide Seg.Inv, SpaceOk, Count, CountIn;
    var b := st.spaces[a].mappings[i].phy;
    assert st.spaces[c].alive;
    MappingCounted(l, st, pinned, a, i);
    MappingCounted(l, st, pinned, c, j);
    if st.spaces[c].mappings[j].phy == b { OnlyOneMapping(st.spaces, a, i, c, j, b); }
  }

  /** The last sharer: the mark goes, nothing else changes. */
  lemma CowAloneKeepsInv(l: Layout, st: State, pinned: set<nat>, a: nat, i: nat)
    requires Inv(l, st, pinned) && Alive(st, a) && i < |st.spaces[a].mappings|
    requires st.spaces[a].mappings[i].phy in Table(st.segs)
    requires Table(st.segs)[st.spaces[a].mappings[i].phy].tag.refs == 1
    ensures Cow(st, a, i).Some? && Inv(l, Cow(st, a, i).value, pinned)
  {
    hide Retag, Seg.Inv, WithEntries, SpaceOk, Count, CountIn;
    var sp := st.spaces[a];
    var m := sp.mappings[i];
    var t := Table(st.segs);
    var x := t[m.phy];
    MappingCounted(l, st, pinned, a, i);
    TableIndex(l.lo, l.hi, st.segs, m.phy);
    RetagTable(l.lo, l.hi, st.segs, m.phy, x.tag.(cow := false));
    var st' := Cow(st, a, i).value;
    var t' := Table(st'.segs);
    assert t' == t[m.phy := WithCow(x, false)];
    forall c, j | 0 <= c < |st.spaces| && 0 <= j < |st.spaces[c].mappings| && (c != a || j != i)
      ensures Stable(t, t', st.spaces[c].mappings[j].phy)
    {
      UnmarkOther(l, st, pinned, a, i, c, j);
    }
    RenewSpaceOk(l, t, t', sp, i, m);
    assert sp.mappings[i := m] == sp.mappings;
    ReplaceSpaceKeepsInv(l, st, pinned, a, st');
  }

  /** A sharer among others: a copy of its own, one reference less on the shared segment. */
  lemma CowCopyKeepsInv(l: Layout, st: State, pinned: set<nat>, a: nat, i: nat)
    requires Inv(l, st, pinned) && Alive(st, a) && i < |st.spaces[a].mappings|
    requires st.spaces[a].mappings[i].phy in Table(st.segs)
    requires Table(st.segs)[st.spaces[a].mappings[i].phy].tag.refs > 1
    requires Cow(st, a, i).Some?
    ensures Inv(l, Cow(st, a, i).value, pinned)
  {
    hide Seg.Alloc, Seg.Release, Seg.Inv, WithEntries, SpaceOk, Count, CountIn, RefsOk, RefsFollow;
    var sp := st.spaces[a];
    var m := sp.mappings[i];
    var t := Table(st.segs);
    MappingCounted(l, st, pinned, a, i);
    TableIndex(l.lo, l.hi, st.segs, m.phy);
    var (segs, seg) := Seg.Alloc(st.segs, m.pages);
    var x := seg.value;
    MappingHasPages(l, t, sp, i);
    AllocTable(l.lo, l.hi, st.segs, m.pages);
    ReleaseTable(l.lo, l.hi, segs, m.phy);
    var st' := Cow(st, a, i).value;
    var t' := Table(st'.segs);
    var m' := m.(phy := x.base);
    forall c, j | 0 <= c < |st.spaces| && 0 <= j < |st.spaces[c].mappings|
      ensures Stable(t, t', st.spaces[c].mappings[j].phy)
    {
      assert st.spaces[c].alive;
      MappingCounted(l, st, pinned, c, j);
    }
    RenewSpaceOk(l, t, t', sp, i, m');
    FreshUncounted(l, st, pinned, x.base);
    CowCopyRefs(t, t', st.spaces, a, i, x, st'.spaces[a], pinned);
    ReplaceSpaceKeepsInv(l, st, pinned, a, st');
  }

  /** The reference that moves from the shared segment to the copy. */
  lemma CowCopyRefs(t: map<nat, Seg.Segment>, t': map<nat, Seg.Segment>, spaces: seq<Space>, a: nat, i: nat,
                    x: Seg.Segment, sp: Space, pinned: set<nat>)
    requires RefsOk(t, spaces, pinned) && a < |spaces| && i < |spaces[a].mappings|
    requires x.base !in t && Count(spaces, x.base) == 0 && x.tag.refs == 1
    requires var b := spaces[a].mappings[i].phy;
             b in t && t[b].tag.refs > 0 && t' == t[x.base := x][b := WithRefs(t[b], t[b].tag.refs - 1)]
    requires sp.mappings == spaces[a].mappings[i := spaces[a].mappings[i].(phy := x.base)]
    ensures RefsFollow(t', spaces, a, sp, pinned)
  {
    hide Count, CountIn;
    forall b | b in t'
      ensures t'[b].tag.refs + CountIn(spaces[a].mappings, b)
              == Count(spaces, b) + CountIn(sp.mappings, b) + if b in pinned then 1 else 0
    {
      CountInUpdate(spaces[a].mappings, i, spaces[a].mappings[i].(phy := x.base), b);
    }
  }

  lemma WriteFaultKeepsInv(l: Layout, st: State, pinned: set<nat>, a: nat, v: nat)
    requires Inv(l, st, pinned) && WriteFault(st, a, v).Some?
    ensures Inv(l, WriteFault(st, a, v).value, pinned)
  {
    hide Cow, SpaceOk, Seg.Inv;
    var i := Locate(st.spaces[a].mappings, v, 0);
    MappingCounted(l, st, pinned, a, i);
    if Table(st.segs)[st.spaces[a].mappings[i].phy].tag.refs == 1 {
      CowAloneKeepsInv(l, st, pinned, a, i);
    } else {
      CowCopyKeepsInv(l, st, pinned, a, i);
    }
  }

  lemma StoreKeepsInv(l: Layout, st: State, pinned: set<nat>, a: nat, v: nat, off: nat, b: int)
    requires Inv(l, st, pinned) && Store(st, a, v, off, b).Some?
    ensures Inv(l, Store(st, a, v, off, b).value, pinned)
  {
  }

  // ----- Exiting -----

  function Refs(t: map<nat, Seg.Segment>, b: nat): nat {
    if b in t then t[b].tag.refs else 0
  }

  /** Each mapping of `ms` gave up its reference. */
  ghost predicate Released(t: map<nat, Seg.Segment>, t': map<nat, Seg.Segment>, ms: seq<Mapping>) {
    forall b: nat :: ReleasedAt(t, t', CountIn(ms, b), b)
  }

  /** `n` references to the segment at `b` were given up. */
  ghost predicate ReleasedAt(t: map<nat, Seg.Segment>, t': map<nat, Seg.Segment>, n: nat, b: nat) {
    && (b in t' <==> Refs(t, b) > n)
    && (b in t' ==> b in t && t'[b] == WithRefs(t[b], t[b].tag.refs - n))
  }

  /** Table `t` after one reference to the segment at `c` was given up. */
  function Dropped(t: map<nat, Seg.Segment>, c: nat): map<nat, Seg.Segment>
    requires c in t && t[c].tag.refs > 0
  {
    if t[c].tag.refs == 1 then t - {c} else t[c := WithRefs(t[c], t[c].tag.refs - 1)]
  }

  lemma ReleasedStep(t: map<nat, Seg.Segment>, t': map<nat, Seg.Segment>, ms: seq<Mapping>)
    requires ms != [] && forall b :: b in t ==> t[b].tag.refs > 0
    requires forall b: nat :: CountIn(ms, b) <= Refs(t, b)
    ensures ms[0].phy in t
    ensures forall b: nat :: CountIn(ms[1..], b) <= Refs(Dropped(t, ms[0].phy), b)
    ensures Released(Dropped(t, ms[0].phy), t', ms[1..]) ==> Released(t, t', ms)
  {
    var c := ms[0].phy;
    assert CountIn(ms, c) == 1 + CountIn(ms[1..], c);
    var t1 := Dropped(t, c);
    forall b: nat ensures CountIn(ms[1..], b) <= Refs(t1, b) {
      assert CountIn(ms, b) <= Refs(t, b);
    }
    if Released(t1, t', ms[1..]) {
      forall b: nat ensures ReleasedAt(t, t', CountIn(ms, b), b) {
        assert ReleasedAt(t1, t', CountIn(ms[1..], b), b);
        if b == c { assert CountIn(ms, b) == 1 + CountIn(ms[1..], b); } else { assert Refs(t1, b) == Refs(t, b); }
      }
    }
  }

  lemma {:induction false} ReleaseAllTable(lo: nat, hi: nat, segs: seq<Seg.Segment>, ms: seq<Mapping>)
    requires Seg.Inv(lo, hi, segs)
    requires forall b: nat :: CountIn(ms, b) <= Refs(Table(segs), b)
    ensures Seg.Inv(lo, hi, ReleaseAll(segs, ms))
    ensures Released(Table(segs), Table(ReleaseAll(segs, ms)), ms)
    decreases |ms|
  {
    hide Seg.Inv, Seg.Release;
    var t := Table(segs);
    forall b | b in t ensures t[b].tag.refs > 0 { TableBounds(lo, hi, segs, b); }
    if ms != [] {
      hide Released, Refs, CountIn;
      var segs' := Seg.Release(segs, ms[0].phy);
      ReleasedStep(t, Table(ReleaseAll(segs', ms[1..])), ms);
      ReleaseTable(lo, hi, segs, ms[0].phy);
      ReleaseAllTable(lo, hi, segs', ms[1..]);
    }
  }

  lemma ExitKeepsInv(l: Layout, st: State, pinned: set<nat>, a: nat)
    requires Inv(l, st, pinned)
    ensures Inv(l, Exit(st, a), pinned)
  {
    hide ReleaseAll, Seg.Inv, SpaceOk;
    if Alive(st, a) {
      var sp := st.spaces[a];
      var t := Table(st.segs);
      forall b: nat ensures CountIn(sp.mappings, b) <= Count(st.spaces, b) <= Refs(t, b) {
        CountUpdate(st.spaces, a, DEAD, b);
        if b !in t { FreshUncounted(l, st, pinned, b); }
      }
      ReleaseAllTable(l.lo, l.hi, st.segs, sp.mappings);
      var st' := Exit(st, a);
      var t' := Table(st'.segs);
      forall c, j | 0 <= c < |st.spaces| && c != a && 0 <= j < |st.spaces[c].mappings|
        ensures Stable(t, t', st.spaces[c].mappings[j].phy)
      {
        assert st.spaces[c].alive;
        var b := st.spaces[c].mappings[j].phy;
        MappingCounted(l, st, pinned, c, j);
        CountUpdate(st.spaces, a, DEAD, b);
        CountUpdate(st.spaces[a := DEAD], c, DEAD, b);
        CountInSplit(st.spaces[c].mappings, j, b);
      }
      ReplaceSpaceKeepsInv(l, st, pinned, a, st');
    }
  }

  // ----- Forking -----

  /** Each mapping of `ms` added a reference, and marked its segment if writable. */
  ghost predicate Shared(t: map<nat, Seg.Segment>, t': map<nat, Seg.Segment>, ms: seq<Mapping>) {
    && t'.Keys == t.Keys
    && (forall b :: b in t ==> t'[b].size == t[b].size && t'[b].tag.refs == t[b].tag.refs + CountIn(ms, b)
                               && (t[b].tag.cow ==> t'[b].tag.cow))
    && (forall i :: 0 <= i < |ms| && ms[i].write && ms[i].phy in t' ==> t'[ms[i].phy].tag.cow)
  }

  /** Table `t` after mapping `m` added its reference. */
  function Referenced(t: map<nat, Seg.Segment>, m: Mapping): map<nat, Seg.Segment>
    requires m.phy in t
  {
    var x := t[m.phy];
    t[m.phy := x.(tag := Seg.SegInfo(x.tag.refs + 1, x.tag.cow || m.write))]
  }

  lemma SharedStep(t: map<nat, Seg.Segment>, t': map<nat, Seg.Segment>, ms: seq<Mapping>)
    requires ms != [] && ms[0].phy in t
    ensures Shared(Referenced(t, ms[0]), t', ms[1..]) ==> Shared(t, t', ms)
  {
    var t1 := Referenced(t, ms[0]);
    if Shared(t1, t', ms[1..]) {
      forall b | b in t
        ensures t'[b].size == t[b].size && t'[b].tag.refs == t[b].tag.refs + CountIn(ms, b)
                && (t[b].tag.cow ==> t'[b].tag.cow)
      {
        assert b in t1;
      }
      forall i | 0 <= i < |ms| && ms[i].write && ms[i].phy in t' ensures t'[ms[i].phy].tag.cow {
        if i > 0 { assert ms[1..][i - 1] == ms[i]; } else { assert t1[ms[0].phy].tag.cow; }
      }
    }
  }

  /** Sharing marks exactly the segments of writable mappings. */
  lemma {:induction false} ShareAllMarks(lo: nat, hi: nat, segs: seq<Seg.Segment>, ms: seq<Mapping>, b: nat)
    requires Seg.Inv(lo, hi, segs) && b in Table(segs)
    requires forall i :: 0 <= i < |ms| ==> ms[i].phy in Table(segs)
    ensures b in Table(ShareAll(segs, ms))
    ensures Table(ShareAll(segs, ms))[b].tag.cow
            <==> Table(segs)[b].tag.cow || exists i :: 0 <= i < |ms| && ms[i].phy == b && ms[i].write
    decreases |ms|
  {
    hide Seg.Inv, Share, Table;
    if ms != [] {
      var rest := ms[1..];
      assert forall i :: 0 <= i < |rest| ==> rest[i] == ms[i + 1];
      ShareTable(lo, hi, segs, ms[0]);
      ShareAllMarks(lo, hi, Share(segs, ms[0]), rest, b);
      assert forall i :: 0 < i < |ms| ==> ms[i] == rest[i - 1];
    }
  }

  lemma ShareTable(lo: nat, hi: nat, segs: seq<Seg.Segment>, m: Mapping)
    requires Seg.Inv(lo, hi, segs) && m.phy in Table(segs)
    ensures Seg.Inv(lo, hi, Share(segs, m))
    ensures Table(Share(segs, m)) == Referenced(Table(segs), m)
    ensures Table(Share(segs, m)).Keys == Table(segs).Keys
  {
    hide Seg.Inv, Retag;
    var x := Table(segs)[m.phy];
    TableIndex(lo, hi, segs, m.phy);
    RetagTable(lo, hi, segs, m.phy, Seg.SegInfo(x.tag.refs + 1, x.tag.cow || m.write));
  }

  lemma {:induction false} ShareAllTable(lo: nat, hi: nat, segs: seq<Seg.Segment>, ms: seq<Mapping>)
    requires Seg.Inv(lo, hi, segs)
    requires forall i :: 0 <= i < |ms| ==> ms[i].phy in Table(segs)
    ensures Seg.Inv(lo, hi, ShareAll(segs, ms))
    ensures Shared(Table(segs), Table(ShareAll(segs, ms)), ms)
    decreases |ms|
  {
    hide Seg.Inv, Share;
    if ms != [] {
      hide Shared, Referenced;
      ShareTable(lo, hi, segs, ms[0]);
      ShareAllTable(lo, hi, Share(segs, ms[0]), ms[1..]);
      SharedStep(Table(segs), Table(ShareAll(segs, ms)), ms);
    }
  }

  /** The ranges of mappings that are apart can all be reserved in a fresh space. */
  lemma {:induction false} ReserveAllSucceeds(lo: nat, hi: nat, regions: seq<Reg.Region>, ms: seq<Mapping>)
    requires lo > 0 && Tiles(lo, hi, regions) && Coalesced(Reg.Unmapped, regions)
    requires forall i :: 0 <= i < |ms| ==> ms[i].pages > 0 && lo <= ms[i].virt && ms[i].virt + ms[i].pages <= hi
    requires forall i, j :: 0 <= i < j < |ms| ==> Apart(ms[i], ms[j])
    requires forall x, i, v: nat :: x in Reg.Mapped(regions) && 0 <= i < |ms| && ms[i].Covers(v) ==> !x.Covers(v)
    ensures ReserveAll(regions, ms).Some?
    ensures Tiles(lo, hi, ReserveAll(regions, ms).value)
    ensures Reg.Mapped(ReserveAll(regions, ms).value) == Reg.Mapped(regions) + Ranges(ms)
    decreases |ms|
  {
    hide Reg.Reserve, Tiles;
    if ms != [] {
      var m := ms[0];
      forall q | m.virt <= q < m.virt + m.pages ensures UnitFree(Reg.Unmapped, regions, q) {
        var k := TilesCover(lo, hi, regions, q);
        assert m.Covers(q);
        var r := regions[k];
        assert r in Reg.Mapped(regions) || !r.tag;
        assert Reg.Unmapped(regions[k].tag) && regions[k].Covers(q);
      }
      Reg.ReserveFreeRange(lo, hi, regions, m.virt, m.pages);
      var rs := Reg.Reserve(regions, m.virt, m.pages).0;
      forall x, i, v: nat | x in Reg.Mapped(rs) && 0 <= i < |ms[1..]| && ms[1..][i].Covers(v) ensures !x.Covers(v) {
        assert ms[i + 1].Covers(v) && Apart(ms[0], ms[i + 1]);
        if x == RangeOf(m) { assert x.Covers(v) ==> m.Covers(v); }
      }
      ReserveAllSucceeds(lo, hi, rs, ms[1..]);
      assert Ranges(ms) == {RangeOf(m)} + Ranges(ms[1..]) by {
        assert ms == [m] + ms[1..];
      }
    }
  }

  lemma {:induction false} ReversedIndex(ms: seq<Mapping>)
    ensures |Reversed(ms)| == |ms|
    ensures forall i :: 0 <= i < |ms| ==> Reversed(ms)[i] == ms[|ms| - 1 - i]
    decreases |ms|
  {
    if ms != [] { ReversedIndex(ms[1..]); }
  }

  /** The mappings of a space all lie inside the user half, on pages of their own. */
  lemma ForkRegions(l: Layout, t: map<nat, Seg.Segment>, sp: Space)
    requires 0 < l.userBegin < l.kernelBegin && SpaceOk(l, t, sp)
    ensures var r := ReserveAll(FreshSpace(l).regions, sp.mappings);
            && r.Some?
            && Tiles(l.userBegin, l.kernelBegin, r.value)
            && Reg.Mapped(r.value) == Ranges(Reversed(sp.mappings))
  {
    var fresh_ := FreshSpace(l).regions;
    TilesOne(fresh_[0]);
    assert Reg.Mapped(fresh_) == {};
    forall i | 0 <= i < |sp.mappings|
      ensures var m := sp.mappings[i];
              m.pages > 0 && l.userBegin <= m.virt && m.virt + m.pages <= l.kernelBegin
    {
      assert RangeOf(sp.mappings[i]) in Reg.Mapped(sp.regions);
      var k :| 0 <= k < |sp.regions| && sp.regions[k] == RangeOf(sp.mappings[i]);
      TilesAt(l.userBegin, l.kernelBegin, sp.regions, k);
    }
    ReserveAllSucceeds(l.userBegin, l.kernelBegin, fresh_, sp.mappings);
    ReversedRanges(sp.mappings);
  }

  lemma ReversedRanges(ms: seq<Mapping>)
    ensures Ranges(Reversed(ms)) == Ranges(ms)
  {
    ReversedIndex(ms);
    forall m | m in ms ensures m in Reversed(ms) {
      var i :| 0 <= i < |ms| && ms[i] == m;
      assert Reversed(ms)[|ms| - 1 - i] == m;
    }
    forall m | m in Reversed(ms) ensures m in ms {
      var i :| 0 <= i < |ms| && Reversed(ms)[i] == m;
    }
  }

  lemma ProtectedMappingOk(t: map<nat, Seg.Segment>, t': map<nat, Seg.Segment>, ptes: map<nat, Pte>, m: Mapping)
    requires MappingOk(t, ptes, m)
    requires m.phy in t' && t'[m.phy].size == t[m.phy].size && (m.write ==> t'[m.phy].tag.cow)
    ensures MappingOk(t', WriteProtected(ptes), m)
  {
    forall v: nat | m.Covers(v) ensures EntryOk(t'[m.phy], WriteProtected(ptes), m, v) {
      assert EntryOk(t[m.phy], ptes, m, v);
    }
  }

  lemma ForkSpacesOk(l: Layout, t: map<nat, Seg.Segment>, t': map<nat, Seg.Segment>, sp: Space)
    requires 0 < l.userBegin < l.kernelBegin && SpaceOk(l, t, sp) && Shared(t, t', sp.mappings)
    ensures SpaceOk(l, t', sp.(ptes := WriteProtected(sp.ptes)))
    ensures var r := ReserveAll(FreshSpace(l).regions, sp.mappings);
            r.Some? && SpaceOk(l, t', Space(true, r.value, Reversed(sp.mappings), WriteProtected(sp.ptes)))
  {
    hide ReserveAll, WriteProtected, Tiles, Ranges, AllOk, AllApart, AllCovered;
    ForkRegions(l, t, sp);
    ProtectedAllOk(t, t', sp.ptes, sp.mappings);
    ReversedOk(t', WriteProtected(sp.ptes), sp.mappings);
    ProtectedCovered(sp.ptes, sp.mappings);
    ReversedOrder(WriteProtected(sp.ptes), sp.mappings);
  }

  lemma ProtectedAllOk(t: map<nat, Seg.Segment>, t': map<nat, Seg.Segment>, ptes: map<nat, Pte>, ms: seq<Mapping>)
    requires AllOk(t, ptes, ms) && Shared(t, t', ms)
    ensures AllOk(t', WriteProtected(ptes), ms)
  {
    forall i | 0 <= i < |ms| ensures MappingOk(t', WriteProtected(ptes), ms[i]) {
      assert MappingOk(t, ptes, ms[i]);
      ProtectedMappingOk(t, t', ptes, ms[i]);
    }
  }

  lemma ReversedOk(t: map<nat, Seg.Segment>, ptes: map<nat, Pte>, ms: seq<Mapping>)
    requires AllOk(t, ptes, ms)
    ensures AllOk(t, ptes, Reversed(ms))
  {
    hide MappingOk;
    ReversedIndex(ms);
  }

  lemma ProtectedCovered(ptes: map<nat, Pte>, ms: seq<Mapping>)
    requires AllCovered(ptes, ms)
    ensures AllCovered(WriteProtected(ptes), ms)
  {
    ProtectedKeys(ptes);
    assert forall v :: v in WriteProtected(ptes) ==> v in ptes;
  }

  lemma ReversedOrder(ptes: map<nat, Pte>, ms: seq<Mapping>)
    requires AllApart(ms) && AllCovered(ptes, ms)
    ensures AllApart(Reversed(ms)) && AllCovered(ptes, Reversed(ms))
  {
    ReversedIndex(ms);
    var rs := Reversed(ms);
    forall i, j | 0 <= i < j < |rs| ensures Apart(rs[i], rs[j]) {
      ApartSymmetric(ms[|ms| - 1 - j], ms[|ms| - 1 - i]);
    }
    forall v | v in ptes ensures Locate(rs, v, 0) < |rs| {
      LocateCovers(rs, v, |ms| - 1 - Locate(ms, v, 0));
    }
  }

  lemma ProtectedKeys(ptes: map<nat, Pte>)
    ensures WriteProtected(ptes).Keys == ptes.Keys
  {
  }

  lemma ForkOthersOk(l: Layout, st: State, pinned: set<nat>, a: nat, c: nat, t': map<nat, Seg.Segment>)
    requires Inv(l, st, pinned) && Alive(st, a) && Alive(st, c) && c != a
    requires Shared(Table(st.segs), t', st.spaces[a].mappings)
    ensures SpaceOk(l, t', st.spaces[c])
  {
    hide SpaceOk, Seg.Inv;
    var t := Table(st.segs);
    forall j | 0 <= j < |st.spaces[c].mappings| ensures Stable(t, t', st.spaces[c].mappings[j].phy) {
      var b := st.spaces[c].mappings[j].phy;
      MappingCounted(l, st, pinned, c, j);
      CountUpdate(st.spaces, a, DEAD, b);
      CountUpdate(st.spaces[a := DEAD], c, DEAD, b);
      CountInSplit(st.spaces[c].mappings, j, b);
    }
    SpaceStable(l, t, t', st.spaces[c]);
  }

  lemma ForkCount(spaces: seq<Space>, a: nat, parent: Space, child: Space, b: nat)
    requires a < |spaces| && parent.mappings == spaces[a].mappings && child.mappings == Reversed(parent.mappings)
    ensures Count(spaces[a := parent] + [child], b) == Count(spaces, b) + CountIn(spaces[a].mappings, b)
  {
    CountAppend(spaces[a := parent], [child], b);
    CountUpdate(spaces, a, parent, b);
    CountInReversed(parent.mappings, b);
    assert [child][1..] == [];
  }

  lemma ForkRefs(t: map<nat, Seg.Segment>, t': map<nat, Seg.Segment>, spaces: seq<Space>, a: nat,
                 parent: Space, child: Space, pinned: set<nat>)
    requires RefsOk(t, spaces, pinned) && a < |spaces| && Shared(t, t', spaces[a].mappings)
    requires parent.mappings == spaces[a].mappings && child.mappings == Reversed(parent.mappings)
    ensures RefsOk(t', spaces[a := parent] + [child], pinned)
  {
    hide Count, CountIn;
    forall b | b in t'
      ensures t'[b].tag.refs == Count(spaces[a := parent] + [child], b) + if b in pinned then 1 else 0
    {
      ForkCount(spaces, a, parent, child, b);
    }
  }

  /** A fork never fails for want of virtual addresses, and keeps the invariant. */
  lemma ForkKeepsInv(l: Layout, st: State, pinned: set<nat>, a: nat)
    requires Inv(l, st, pinned) && Alive(st, a)
    ensures Fork(l, st, a).Some? && Inv(l, Fork(l, st, a).value, pinned)
  {
    hide ReserveAll, ShareAll, Seg.Inv, SpaceOk, WriteProtected, Reversed, RefsOk, Shared;
    var sp := st.spaces[a];
    var ms := sp.mappings;
    var t := Table(st.segs);
    forall i | 0 <= i < |ms| ensures ms[i].phy in t { MappingCounted(l, st, pinned, a, i); }
    ShareAllTable(l.lo, l.hi, st.segs, ms);
    var t' := Table(ShareAll(st.segs, ms));
    ForkSpacesOk(l, t, t', sp);
    var st' := Fork(l, st, a).value;
    var parent, child := st'.spaces[a], st'.spaces[|st.spaces|];
    assert st'.spaces == st.spaces[a := parent] + [child];
    forall c | 0 <= c < |st'.spaces| && st'.spaces[c].alive ensures SpaceOk(l, t', st'.spaces[c]) {
      if c < |st.spaces| && c != a { ForkOthersOk(l, st, pinned, a, c, t'); }
    }
    ForkRefs(t, t', st.spaces, a, parent, child, pinned);
  }
}
