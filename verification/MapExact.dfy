// What mapping and unmapping do to the ranges of an address space, exactly: when a request is
// granted, where it lands, and which ranges are taken or free afterwards.

module MapExact {
  import opened Common
  import opened Tiling
  import opened SegmentMap
  import opened VirtualMemory
  import opened CowInvariant
  import opened CowSteps
  import opened CowRefinement
  import Seg = Segments
  import Reg = Regions

  /** One free region holds the range asked for; any will do when no address is given. */
  ghost predicate RangeFree(regions: seq<Reg.Region>, virt: nat, n: nat) {
    if virt == 0 then exists p: nat :: Reg.InOneFree(regions, p, n) else Reg.InOneFree(regions, virt, n)
  }

  /** There are `n` free frames in a row. */
  ghost predicate FramesFree(segs: seq<Seg.Segment>, n: nat) {
    exists p: nat :: AllFree(Seg.Unused, segs, p, n)
  }

  /** A mapping is granted if and only if the space lives, pages are asked for, one free region
      holds the range and there are frames in a row. */
  lemma MapGranted(l: Layout, st: State, pinned: set<nat>, a: nat, virt: nat, n: nat, write: bool)
    requires Inv(l, st, pinned)
    ensures MapFresh(st, a, virt, n, write).Some?
            <==> Alive(st, a) && n > 0 && RangeFree(st.spaces[a].regions, virt, n) && FramesFree(st.segs, n)
  {
    hide Reg.Reserve, Seg.Alloc, Seg.Inv, Tiles, Inv, WithEntries, AllFree, Reg.InOneFree;
    if Alive(st, a) && n > 0 {
      SpaceTiles(l, st, pinned, a);
      SegmentsOk(l, st, pinned);
      Reg.ReserveCorrect(l.userBegin, l.kernelBegin, st.spaces[a].regions, virt, n);
      Seg.AllocCorrect(l.lo, l.hi, st.segs, n);
      var (regions, at) := Reg.Reserve(st.spaces[a].regions, virt, n);
      var (segs, seg) := Seg.Alloc(st.segs, n);
    }
  }

  lemma SpaceTiles(l: Layout, st: State, pinned: set<nat>, a: nat)
    requires Inv(l, st, pinned) && Alive(st, a)
    ensures Tiles(l.userBegin, l.kernelBegin, st.spaces[a].regions)
    ensures Ranges(st.spaces[a].mappings) <= Reg.Mapped(st.spaces[a].regions)
  {
  }

  /** In a new space every range of user pages can be had. */
  lemma NewSpaceIsFree(l: Layout, st: State, virt: nat, n: nat)
    requires l.userBegin <= virt && virt + n <= l.kernelBegin
    ensures var sp := Create(l, st).spaces[|st.spaces|];
            sp.alive && sp.mappings == [] && Reg.Mapped(sp.regions) == {} && Reg.InOneFree(sp.regions, virt, n)
  {
    var s := FreshSpace(l).regions;
    assert !s[0].tag && s[0].base <= virt && virt + n <= s[0].End();
  }

  /** A granted mapping lies at the address asked for, over pages and frames that were free,
      and takes exactly its range. */
  lemma MapPlaced(l: Layout, st: State, pinned: set<nat>, a: nat, virt: nat, n: nat, write: bool)
    requires Inv(l, st, pinned) && MapFresh(st, a, virt, n, write).Some?
    ensures var st' := MapFresh(st, a, virt, n, write).value;
            var sp, sp' := st.spaces[a], st'.spaces[a];
            && st'.spaces == st.spaces[a := sp'] && st'.mem == st.mem
            && |sp'.mappings| == |sp.mappings| + 1 && sp'.mappings[1..] == sp.mappings
            && var m := sp'.mappings[0];
               && m.pages == n && m.write == write && (virt != 0 ==> m.virt == virt)
               && AllFree(Reg.Unmapped, sp.regions, m.virt, n) && AllFree(Seg.Unused, st.segs, m.phy, n)
               && Reg.Mapped(sp'.regions) == Reg.Mapped(sp.regions) + {RangeOf(m)}
  {
    hide Reg.Reserve, Seg.Alloc, Seg.Inv, Tiles, Inv, WithEntries, AllFree, Reg.InOneFree, Busy;
    SpaceTiles(l, st, pinned, a);
    SegmentsOk(l, st, pinned);
    var (regions, at) := Reg.Reserve(st.spaces[a].regions, virt, n);
    var (segs, seg) := Seg.Alloc(st.segs, n);
    Reg.ReserveCorrect(l.userBegin, l.kernelBegin, st.spaces[a].regions, virt, n);
    Seg.AllocCorrect(l.lo, l.hi, st.segs, n);
  }

  lemma NotMappedAt(lo: nat, hi: nat, s: seq<Reg.Region>, at: nat, n: nat, x: Reg.Region)
    requires Tiles(lo, hi, s) && AllFree(Reg.Unmapped, s, at, n) && n > 0 && x in Reg.Mapped(s)
    ensures x.base != at
  {
    if x.base == at {
      var i :| 0 <= i < |s| && s[i] == x;
      TilesAt(lo, hi, s, i);
      BusyNotFree(Reg.Unmapped, lo, hi, s, x, at);
    }
  }

  /** A mapping that fails for want of frames leaves a range asked for by address reserved;
      one that the kernel chose is given back. Nothing else changes. */
  lemma MapFailedLeaves(l: Layout, st: State, pinned: set<nat>, a: nat, virt: nat, n: nat)
    requires Inv(l, st, pinned) && Alive(st, a)
    ensures var st' := MapFailed(st, a, virt, n);
            var sp, sp' := st.spaces[a], st'.spaces[a];
            && st'.segs == st.segs && st'.mem == st.mem && st'.spaces == st.spaces[a := sp.(regions := sp'.regions)]
            && Reg.Mapped(sp'.regions) == Reg.Mapped(sp.regions)
                 + if virt != 0 && n > 0 && RangeFree(sp.regions, virt, n) then {Span(virt, n, true)} else {}
  {
    hide Reg.Reserve, Reg.Release, Tiles, Inv, AllFree, Reg.InOneFree, Busy;
    if n > 0 {
      var s := st.spaces[a].regions;
      SpaceTiles(l, st, pinned, a);
      Reg.ReserveCorrect(l.userBegin, l.kernelBegin, s, virt, n);
      var (regions, at) := Reg.Reserve(s, virt, n);
      if at.Some? {
        Reg.ReleaseCorrect(l.userBegin, l.kernelBegin, regions, at.value);
        forall x | x in Reg.Mapped(s) ensures x.base != at.value {
          NotMappedAt(l.userBegin, l.kernelBegin, s, at.value, n, x);
        }
      }
    }
  }

  /** Unmapping frees exactly the range of the mapping, in one region; an address where no
      mapping begins changes nothing. */
  lemma UnmapFrees(l: Layout, st: State, pinned: set<nat>, a: nat, virt: nat)
    requires Inv(l, st, pinned) && Alive(st, a)
    ensures var i := MappingAt(st.spaces[a].mappings, virt, 0);
            var sp, sp' := st.spaces[a], Unmap(st, a, virt).spaces[a];
            if i == |sp.mappings| then Unmap(st, a, virt) == st
            else
              var m := sp.mappings[i];
              && m.virt == virt && sp'.mappings == Without(sp.mappings, i)
              && Reg.Mapped(sp'.regions) == Reg.Mapped(sp.regions) - {RangeOf(m)}
              && Reg.InOneFree(sp'.regions, virt, m.pages)
  {
    hide Reg.Release, Seg.Release, Tiles, Inv, Busy, Without, WithoutEntries, Reg.InOneFree;
    var sp := st.spaces[a];
    var i := MappingAt(sp.mappings, virt, 0);
    if i < |sp.mappings| {
      var m := sp.mappings[i];
      SpaceTiles(l, st, pinned, a);
      assert m in sp.mappings && RangeOf(m) in Ranges(sp.mappings);
      Reg.ReleaseCorrect(l.userBegin, l.kernelBegin, sp.regions, virt);
      Reg.ReleaseMakesRoom(l.userBegin, l.kernelBegin, sp.regions, RangeOf(m));
      forall x | x in Reg.Mapped(sp.regions) && x.base == virt ensures x == RangeOf(m) {
        Reg.MappedUnique(l.userBegin, l.kernelBegin, sp.regions, x, RangeOf(m));
      }
    }
  }

  /** What was unmapped can be mapped again at the same place, if there are frames. */
  lemma UnmappedMapsAgain(l: Layout, st: State, pinned: set<nat>, a: nat, virt: nat, write: bool)
    requires Inv(l, st, pinned) && Alive(st, a) && virt != 0
    requires MappingAt(st.spaces[a].mappings, virt, 0) < |st.spaces[a].mappings|
    ensures var n := st.spaces[a].mappings[MappingAt(st.spaces[a].mappings, virt, 0)].pages;
            var st' := Unmap(st, a, virt);
            FramesFree(st'.segs, n) ==> MapFresh(st', a, virt, n, write).Some?
  {
    hide Inv, Unmap, MapFresh, FramesFree, Reg.InOneFree;
    var i := MappingAt(st.spaces[a].mappings, virt, 0);
    var n := st.spaces[a].mappings[i].pages;
    MappingIsOk(l, st, pinned, a, i);
    UnmapFrees(l, st, pinned, a, virt);
    UnmapKeepsInv(l, st, pinned, a, virt);
    UnmapStaysAlive(st, a, virt);
    MapGranted(l, Unmap(st, a, virt), pinned, a, virt, n, write);
  }

  lemma UnmapStaysAlive(st: State, a: nat, virt: nat)
    requires Alive(st, a)
    ensures Alive(Unmap(st, a, virt), a)
  {
  }

  /** A fork takes in the child exactly the ranges that the parent has mapped, and leaves the
      ranges of the parent alone. */
  lemma ForkRanges(l: Layout, st: State, pinned: set<nat>, a: nat)
    requires Inv(l, st, pinned) && Alive(st, a)
    ensures Fork(l, st, a).Some?
    ensures var st' := Fork(l, st, a).value;
            var sp, child := st.spaces[a], st'.spaces[|st.spaces|];
            && |st'.spaces| == |st.spaces| + 1
            && Reg.Mapped(child.regions) == Ranges(sp.mappings)
            && st'.spaces[a].regions == sp.regions && st'.spaces[a].mappings == sp.mappings
  {
    hide Inv, ReserveAll, ShareAll;
    ForkKeepsInv(l, st, pinned, a);
    SpaceIsOk(l, st, pinned, a);
    LayoutBegins(l, st, pinned);
    ForkRegions(l, Table(st.segs), st.spaces[a]);
    ReversedRanges(st.spaces[a].mappings);
  }

  lemma LayoutBegins(l: Layout, st: State, pinned: set<nat>)
    requires Inv(l, st, pinned)
    ensures 0 < l.userBegin < l.kernelBegin
  {
  }
}
