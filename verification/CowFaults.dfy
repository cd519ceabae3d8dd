// When a write fault is taken for copy-on-write: exact conditions for one and two faults in a
// row, and a run in which a write that is not allowed faults through twice.

module CowFaults {
  import opened Common
  import opened Tiling
  import opened SegmentMap
  import opened VirtualMemory
  import opened CowInvariant
  import opened CowSteps
  import opened CowRefinement
  import opened CowRuns
  import Seg = Segments
  import Reg = Regions

  // ----- Exact conditions -----

  /** The segment behind page `v` is marked, and is unshared or can be copied. */
  ghost predicate Handled(st: State, a: nat, v: nat) {
    && SegmentBehind(st, a, v).Some?
    && SegmentBehind(st, a, v).value.cow
    && (SegmentBehind(st, a, v).value.refs == 1 || Seg.Alloc(st.segs, MappingBehind(st, a, v).value.pages).1.Some?)
  }

  /** A write fault is handled if and only if the segment is marked, and unshared or there
      is memory for a copy. */
  lemma FirstFaultExact(l: Layout, st: State, pinned: set<nat>, a: nat, v: nat)
    requires Inv(l, st, pinned)
    ensures WriteFault(st, a, v).Some? <==> Handled(st, a, v)
  {
    hide Inv, Seg.Alloc, Seg.Release, WithEntries, Retag;
    if MappingBehind(st, a, v).Some? {
      var i := Locate(st.spaces[a].mappings, v, 0);
      MappingIsOk(l, st, pinned, a, i);
      SegmentsOk(l, st, pinned);
      TableIndex(l.lo, l.hi, st.segs, st.spaces[a].mappings[i].phy);
    }
  }

  /** The copy carries the mark of the free segment it was cut from. */
  lemma CopyKeepsOldMark(l: Layout, st: State, pinned: set<nat>, a: nat, v: nat)
    requires Inv(l, st, pinned) && WriteFault(st, a, v).Some? && SegmentBehind(st, a, v).Some?
    requires SegmentBehind(st, a, v).value.refs > 1
    ensures Seg.Alloc(st.segs, MappingBehind(st, a, v).value.pages).1.Some?
    ensures SegmentBehind(WriteFault(st, a, v).value, a, v)
            == Some(Seg.Alloc(st.segs, MappingBehind(st, a, v).value.pages).1.value.tag)
  {
    hide Inv, Seg.Alloc, Seg.Release, WithEntries, Retag;
    var sp := st.spaces[a];
    var i := Locate(sp.mappings, v, 0);
    var m := sp.mappings[i];
    MappingIsOk(l, st, pinned, a, i);
    SegmentsOk(l, st, pinned);
    TableIndex(l.lo, l.hi, st.segs, m.phy);
    AllocTable(l.lo, l.hi, st.segs, m.pages);
    ReleaseTable(l.lo, l.hi, Seg.Alloc(st.segs, m.pages).0, m.phy);
    LocateRenewed(sp.mappings, i, m.(phy := Seg.Alloc(st.segs, m.pages).1.value.base), v);
  }

  /** After a handled fault the next one on the page is handled too if and only if the segment
      was shared and its copy was cut from a marked one. */
  lemma SecondFaultExact(l: Layout, st: State, pinned: set<nat>, a: nat, v: nat)
    requires Inv(l, st, pinned) && WriteFault(st, a, v).Some?
    ensures SegmentBehind(st, a, v).Some?
    ensures WriteFault(WriteFault(st, a, v).value, a, v).Some? <==>
            && SegmentBehind(st, a, v).value.refs > 1
            && var r := Seg.Alloc(st.segs, MappingBehind(st, a, v).value.pages).1;
               r.Some? && r.value.tag.cow
  {
    hide Inv, WriteFault, SegmentBehind, Seg.Alloc;
    FirstFaultExact(l, st, pinned, a, v);
    FaultRound(l, st, pinned, a, v);
    WriteFaultKeepsInv(l, st, pinned, a, v);
    FirstFaultExact(l, WriteFault(st, a, v).value, pinned, a, v);
    BehindCounted(l, st, pinned, a, v);
    if SegmentBehind(st, a, v).value.refs > 1 {
      CopyKeepsOldMark(l, st, pinned, a, v);
    }
  }

  lemma BehindCounted(l: Layout, st: State, pinned: set<nat>, a: nat, v: nat)
    requires Inv(l, st, pinned) && SegmentBehind(st, a, v).Some?
    ensures SegmentBehind(st, a, v).value.refs >= 1
  {
    MappingCounted(l, st, pinned, a, Locate(st.spaces[a].mappings, v, 0));
  }

  // ----- A run in which it happens twice -----

  const SMALL := Layout(0, 3, 1, 10)

  function Booted(mem: seq<Page>): State {
    State([Span(0, 3, Seg.SegInfo(0, false))], [], mem)
  }

  /** Three writable pages, a fork whose child exits, two of the pages given back with their
      mark, a read-only page in the place of the first, and a fork again. */
  const OPS: seq<Op> := [
    CreateOp, MapOp(0, 1, 1, true), MapOp(0, 2, 1, true), MapOp(0, 3, 1, true),
    ForkOp(0), ExitOp(1), UnmapOp(0, 1), UnmapOp(0, 3), MapOp(0, 1, 1, false), ForkOp(0)]

  function Frame(b: nat, refs: nat, cow: bool): Seg.Segment {
    Span(b, 1, Seg.SegInfo(refs, cow))
  }

  function Rw(v: nat, b: nat): Mapping {
    Mapping(v, 1, b, true)
  }

  predicate Looks(st: State, segs: seq<Seg.Segment>, regions: seq<Reg.Region>, ms: seq<Mapping>) {
    && st.segs == segs && |st.mem| == 3
    && |st.spaces| >= 1 && st.spaces[0].alive && st.spaces[0].regions == regions && st.spaces[0].mappings == ms
  }

  lemma MapLooks(st: State, segs: seq<Seg.Segment>, regions: seq<Reg.Region>, ms: seq<Mapping>, v: nat, b: nat,
                 write: bool, cow: bool, segs': seq<Seg.Segment>, regions': seq<Reg.Region>)
    requires Looks(st, segs, regions, ms)
    requires Reg.Reserve(regions, v, 1) == (regions', Some(v)) && Seg.Alloc(segs, 1) == (segs', Some(Frame(b, 1, cow)))
    ensures Looks(Step(SMALL, st, MapOp(0, v, 1, write)).0, segs', regions', [Mapping(v, 1, b, write)] + ms)
    ensures |Step(SMALL, st, MapOp(0, v, 1, write)).0.spaces| == |st.spaces|
  {
    hide Reg.Reserve, Seg.Alloc, WithEntries;
  }

  lemma {:induction false} RunSnoc(l: Layout, st: State, ops: seq<Op>, op: Op)
    requires l.userBegin <= l.kernelBegin
    ensures Run(l, st, ops + [op]).0 == Step(l, Run(l, st, ops).0, op).0
    decreases |ops|
  {
    hide Step;
    if ops == [] {
      assert ops + [op] == [op] && [op][1..] == [];
    } else {
      assert (ops + [op])[1..] == ops[1..] + [op];
      RunSnoc(l, Step(l, st, ops[0]).0, ops[1..], op);
    }
  }

  /** The state after `k` of the operations. */
  function At(mem: seq<Page>, k: nat): State
    requires k <= |OPS|
  {
    Run(SMALL, Booted(mem), OPS[..k]).0
  }

  lemma AtNext(mem: seq<Page>, k: nat)
    requires k < |OPS|
    ensures At(mem, k + 1) == Step(SMALL, At(mem, k), OPS[k]).0
  {
    RunSnoc(SMALL, Booted(mem), OPS[..k], OPS[k]);
    assert OPS[..k + 1] == OPS[..k] + [OPS[k]];
  }

  lemma Created1(mem: seq<Page>)
    requires |mem| == 3
    ensures Looks(At(mem, 1), [Span(0, 3, Seg.SegInfo(0, false))], [Span(1, 9, false)], [])
    ensures |At(mem, 1).spaces| == 1
  {
    AtNext(mem, 0);
    assert OPS[..0] == [] && At(mem, 0) == Booted(mem);
  }

  lemma ThreePages(mem: seq<Page>)
    requires |mem| == 3
    ensures |At(mem, 4).spaces| == 1
    ensures Looks(At(mem, 4), [Frame(0, 1, false), Frame(1, 1, false), Frame(2, 1, false)],
                  [Span(1, 1, true), Span(2, 1, true), Span(3, 1, true), Span(4, 6, false)],
                  [Rw(3, 2), Rw(2, 1), Rw(1, 0)])
  {
    hide At, Step, Seg.Alloc, Reg.Reserve;
    Created1(mem);
    AtNext(mem, 1);
    AtNext(mem, 2);
    AtNext(mem, 3);
    FirstAllocs();
    FirstReserves();
    MapLooks(At(mem, 1), [Span(0, 3, Seg.SegInfo(0, false))], [Span(1, 9, false)], [], 1, 0, true, false,
             [Frame(0, 1, false), Span(1, 2, Seg.SegInfo(0, false))], [Span(1, 1, true), Span(2, 8, false)]);
    assert [Rw(1, 0)] + [] == [Rw(1, 0)];
    MapLooks(At(mem, 2), [Frame(0, 1, false), Span(1, 2, Seg.SegInfo(0, false))], [Span(1, 1, true), Span(2, 8, false)],
             [Rw(1, 0)], 2, 1, true, false,
             [Frame(0, 1, false), Frame(1, 1, false), Frame(2, 0, false)],
             [Span(1, 1, true), Span(2, 1, true), Span(3, 7, false)]);
    assert [Rw(2, 1)] + [Rw(1, 0)] == [Rw(2, 1), Rw(1, 0)];
    MapLooks(At(mem, 3), [Frame(0, 1, false), Frame(1, 1, false), Frame(2, 0, false)],
             [Span(1, 1, true), Span(2, 1, true), Span(3, 7, false)], [Rw(2, 1), Rw(1, 0)], 3, 2, true, false,
             [Frame(0, 1, false), Frame(1, 1, false), Frame(2, 1, false)],
             [Span(1, 1, true), Span(2, 1, true), Span(3, 1, true), Span(4, 6, false)]);
    assert [Rw(3, 2)] + [Rw(2, 1), Rw(1, 0)] == [Rw(3, 2), Rw(2, 1), Rw(1, 0)];
  }

  lemma FirstAllocs()
    ensures Seg.Alloc([Span(0, 3, Seg.SegInfo(0, false))], 1)
            == ([Frame(0, 1, false), Span(1, 2, Seg.SegInfo(0, false))], Some(Frame(0, 1, false)))
    ensures Seg.Alloc([Frame(0, 1, false), Span(1, 2, Seg.SegInfo(0, false))], 1)
            == ([Frame(0, 1, false), Frame(1, 1, false), Frame(2, 0, false)], Some(Frame(1, 1, false)))
    ensures Seg.Alloc([Frame(0, 1, false), Frame(1, 1, false), Frame(2, 0, false)], 1)
            == ([Frame(0, 1, false), Frame(1, 1, false), Frame(2, 1, false)], Some(Frame(2, 1, false)))
  {
    var a := [Span(0, 3, Seg.SegInfo(0, false))];
    var b := [Frame(0, 1, false), Span(1, 2, Seg.SegInfo(0, false))];
    var c := [Frame(0, 1, false), Frame(1, 1, false), Frame(2, 0, false)];
    assert Seg.FirstFit(a, 1, 0) == 0 && Seg.SplitAt(a, 0, 0, 1) == b;
    assert Seg.FirstFit(b, 1, 0) == 1 && Seg.SplitAt(b, 1, 1, 1) == c;
    assert Seg.FirstFit(c, 1, 0) == 2
      && Seg.SplitAt(c, 2, 2, 1) == [Frame(0, 1, false), Frame(1, 1, false), Frame(2, 1, false)];
  }

  lemma FirstReserves()
    ensures Reg.Reserve([Span(1, 9, false)], 1, 1) == ([Span(1, 1, true), Span(2, 8, false)], Some(1))
    ensures Reg.Reserve([Span(1, 1, true), Span(2, 8, false)], 2, 1)
            == ([Span(1, 1, true), Span(2, 1, true), Span(3, 7, false)], Some(2))
    ensures Reg.Reserve([Span(1, 1, true), Span(2, 1, true), Span(3, 7, false)], 3, 1)
            == ([Span(1, 1, true), Span(2, 1, true), Span(3, 1, true), Span(4, 6, false)], Some(3))
  {
    var a, b := [Span(1, 9, false)], [Span(1, 1, true), Span(2, 8, false)];
    var c := [Span(1, 1, true), Span(2, 1, true), Span(3, 7, false)];
    assert Reg.FirstSuiting(a, 1, 1, 0) == 0 && Reg.SplitAt(a, 0, 1, 1) == b;
    assert Reg.FirstSuiting(b, 2, 1, 0) == 1 && Reg.SplitAt(b, 1, 2, 1) == c;
    assert Reg.FirstSuiting(c, 3, 1, 0) == 2
      && Reg.SplitAt(c, 2, 3, 1) == [Span(1, 1, true), Span(2, 1, true), Span(3, 1, true), Span(4, 6, false)];
  }

  // ----- Fork, exit, unmap -----

  lemma ForkShares()
    ensures ShareAll([Frame(0, 1, false), Frame(1, 1, false), Frame(2, 1, false)], [Rw(3, 2), Rw(2, 1), Rw(1, 0)])
            == [Frame(0, 2, true), Frame(1, 2, true), Frame(2, 2, true)]
  {
    var s0 := [Frame(0, 1, false), Frame(1, 1, false), Frame(2, 1, false)];
    var s1 := [Frame(0, 1, false), Frame(1, 1, false), Frame(2, 2, true)];
    var s2 := [Frame(0, 1, false), Frame(1, 2, true), Frame(2, 2, true)];
    var ms := [Rw(3, 2), Rw(2, 1), Rw(1, 0)];
    assert IndexOf(s0, 2, 0) == 2 && Share(s0, ms[0]) == s1;
    assert IndexOf(s1, 1, 0) == 1 && Share(s1, ms[1]) == s2;
    assert IndexOf(s2, 0, 0) == 0 && Share(s2, ms[2]) == [Frame(0, 2, true), Frame(1, 2, true), Frame(2, 2, true)];
    assert ms[1..] == [ms[1], ms[2]] && ms[1..][1..] == [ms[2]] && ms[1..][1..][1..] == [];
  }

  lemma AtInv(mem: seq<Page>, k: nat)
    requires |mem| == 3 && k <= |OPS|
    ensures Inv(SMALL, At(mem, k), {})
  {
    var segs: seq<Seg.Segment> := [Span(0, 3, Seg.SegInfo(0, false))];
    TilesOne(segs[0]);
    assert Seg.InUse(segs) == {};
    assert Table(segs) == map[];
    BootInv(SMALL, segs, mem);
    RunRefines(SMALL, Booted(mem), {}, OPS[..k]);
  }

  lemma ForkLooks(st: State, segs: seq<Seg.Segment>, regions: seq<Reg.Region>, ms: seq<Mapping>)
    requires Looks(st, segs, regions, ms) && Inv(SMALL, st, {})
    ensures var st' := Step(SMALL, st, ForkOp(0)).0;
            && Looks(st', ShareAll(segs, ms), regions, ms)
            && |st'.spaces| == |st.spaces| + 1
            && st'.spaces[|st.spaces|].alive && st'.spaces[|st.spaces|].mappings == Reversed(ms)
  {
    hide Inv, ReserveAll, ShareAll, WriteProtected, Reversed;
    ForkKeepsInv(SMALL, st, {}, 0);
  }

  lemma ExitLooks(st: State, segs: seq<Seg.Segment>, regions: seq<Reg.Region>, ms: seq<Mapping>)
    requires Looks(st, segs, regions, ms) && |st.spaces| == 2 && st.spaces[1].alive
    ensures var st' := Step(SMALL, st, ExitOp(1)).0;
            Looks(st', ReleaseAll(segs, st.spaces[1].mappings), regions, ms)
  {
    hide ReleaseAll;
  }

  lemma UnmapLooks(st: State, segs: seq<Seg.Segment>, regions: seq<Reg.Region>, ms: seq<Mapping>, v: nat)
    requires Looks(st, segs, regions, ms) && MappingAt(ms, v, 0) < |ms|
    ensures var i := MappingAt(ms, v, 0);
            Looks(Step(SMALL, st, UnmapOp(0, v)).0,
                  Seg.Release(segs, ms[i].phy), Reg.Release(regions, v), Without(ms, i))
  {
    hide Seg.Release, Reg.Release, Without, WithoutEntries;
  }

  lemma ExitReleases()
    ensures Reversed([Rw(3, 2), Rw(2, 1), Rw(1, 0)]) == [Rw(1, 0), Rw(2, 1), Rw(3, 2)]
    ensures ReleaseAll([Frame(0, 2, true), Frame(1, 2, true), Frame(2, 2, true)], [Rw(1, 0), Rw(2, 1), Rw(3, 2)])
            == [Frame(0, 1, true), Frame(1, 1, true), Frame(2, 1, true)]
  {
    var ms := [Rw(3, 2), Rw(2, 1), Rw(1, 0)];
    assert ms[1..] == [ms[1], ms[2]] && ms[1..][1..] == [ms[2]] && ms[1..][1..][1..] == [];
    assert Reversed([ms[2]]) == [ms[2]] && Reversed([ms[1], ms[2]]) == [ms[2], ms[1]];
    var s0 := [Frame(0, 2, true), Frame(1, 2, true), Frame(2, 2, true)];
    var s1 := [Frame(0, 1, true), Frame(1, 2, true), Frame(2, 2, true)];
    var s2 := [Frame(0, 1, true), Frame(1, 1, true), Frame(2, 2, true)];
    var s3 := [Frame(0, 1, true), Frame(1, 1, true), Frame(2, 1, true)];
    var rs := [Rw(1, 0), Rw(2, 1), Rw(3, 2)];
    assert IndexOf(s0, 0, 0) == 0 && Seg.Release(s0, 0) == s1;
    assert IndexOf(s1, 1, 0) == 1 && Seg.Release(s1, 1) == s2;
    assert IndexOf(s2, 2, 0) == 2 && Seg.Release(s2, 2) == s3;
    assert rs[1..] == [rs[1], rs[2]] && rs[1..][1..] == [rs[2]] && rs[1..][1..][1..] == [];
  }

  lemma UnmapReleases()
    ensures Seg.Release([Frame(0, 1, true), Frame(1, 1, true), Frame(2, 1, true)], 0)
            == [Frame(0, 0, true), Frame(1, 1, true), Frame(2, 1, true)]
    ensures Seg.Release([Frame(0, 0, true), Frame(1, 1, true), Frame(2, 1, true)], 2)
            == [Frame(0, 0, true), Frame(1, 1, true), Frame(2, 0, true)]
  {
    var s0 := [Frame(0, 1, true), Frame(1, 1, true), Frame(2, 1, true)];
    var s1 := [Frame(0, 0, true), Frame(1, 1, true), Frame(2, 1, true)];
    assert IndexOf(s0, 0, 0) == 0 && s0[0 := Seg.DropRef(s0[0])] == s1;
    assert IndexOf(s1, 2, 0) == 2
      && s1[2 := Seg.DropRef(s1[2])] == [Frame(0, 0, true), Frame(1, 1, true), Frame(2, 0, true)];
  }

  lemma RegionReleases()
    ensures Reg.Release([Span(1, 1, true), Span(2, 1, true), Span(3, 1, true), Span(4, 6, false)], 1)
            == [Span(1, 1, false), Span(2, 1, true), Span(3, 1, true), Span(4, 6, false)]
    ensures Reg.Release([Span(1, 1, false), Span(2, 1, true), Span(3, 1, true), Span(4, 6, false)], 3)
            == [Span(1, 1, false), Span(2, 1, true), Span(3, 7, false)]
  {
    var r0 := [Span(1, 1, true), Span(2, 1, true), Span(3, 1, true), Span(4, 6, false)];
    var r1 := [Span(1, 1, false), Span(2, 1, true), Span(3, 1, true), Span(4, 6, false)];
    assert IndexOf(r0, 1, 0) == 0 && r0[0 := r0[0].(tag := false)] == r1;
    var r2 := [Span(1, 1, false), Span(2, 1, true), Span(3, 1, false), Span(4, 6, false)];
    assert IndexOf(r1, 3, 0) == 2 && r1[2 := r1[2].(tag := false)] == r2;
    assert Reg.MergeAt(r2, 2) == [Span(1, 1, false), Span(2, 1, true), Span(3, 7, false)];
  }

  lemma MarkedPages(mem: seq<Page>)
    requires |mem| == 3
    ensures Looks(At(mem, 8), [Frame(0, 0, true), Frame(1, 1, true), Frame(2, 0, true)],
                  [Span(1, 1, false), Span(2, 1, true), Span(3, 7, false)], [Rw(2, 1)])
  {
    hide At, Step, ShareAll, ReleaseAll, Reversed, Seg.Release, Reg.Release, Inv;
    ThreePages(mem);
    AtInv(mem, 4);
    AtNext(mem, 4);
    AtNext(mem, 5);
    AtNext(mem, 6);
    AtNext(mem, 7);
    var rs := [Span(1, 1, true), Span(2, 1, true), Span(3, 1, true), Span(4, 6, false)];
    var ms := [Rw(3, 2), Rw(2, 1), Rw(1, 0)];
    ForkLooks(At(mem, 4), [Frame(0, 1, false), Frame(1, 1, false), Frame(2, 1, false)], rs, ms);
    ForkShares();
    ExitLooks(At(mem, 5), [Frame(0, 2, true), Frame(1, 2, true), Frame(2, 2, true)], rs, ms);
    ExitReleases();
    UnmapReleases();
    RegionReleases();
    assert MappingAt(ms, 1, 0) == 2 && Without(ms, 2) == [Rw(3, 2), Rw(2, 1)];
    UnmapLooks(At(mem, 6), [Frame(0, 1, true), Frame(1, 1, true), Frame(2, 1, true)], rs, ms, 1);
    var ms' := [Rw(3, 2), Rw(2, 1)];
    assert MappingAt(ms', 3, 0) == 0 && Without(ms', 0) == [Rw(2, 1)];
    UnmapLooks(At(mem, 7), [Frame(0, 0, true), Frame(1, 1, true), Frame(2, 1, true)],
               [Span(1, 1, false), Span(2, 1, true), Span(3, 1, true), Span(4, 6, false)], ms', 3);
  }

  lemma LastSteps()
    ensures Seg.Alloc([Frame(0, 0, true), Frame(1, 1, true), Frame(2, 0, true)], 1)
            == ([Frame(0, 1, true), Frame(1, 1, true), Frame(2, 0, true)], Some(Frame(0, 1, true)))
    ensures Reg.Reserve([Span(1, 1, false), Span(2, 1, true), Span(3, 7, false)], 1, 1)
            == ([Span(1, 1, true), Span(2, 1, true), Span(3, 7, false)], Some(1))
    ensures ShareAll([Frame(0, 1, true), Frame(1, 1, true), Frame(2, 0, true)], [Mapping(1, 1, 0, false), Rw(2, 1)])
            == [Frame(0, 2, true), Frame(1, 2, true), Frame(2, 0, true)]
    ensures Seg.Alloc([Frame(0, 2, true), Frame(1, 2, true), Frame(2, 0, true)], 1).1 == Some(Frame(2, 1, true))
  {
    var s0 := [Frame(0, 0, true), Frame(1, 1, true), Frame(2, 0, true)];
    var s1 := [Frame(0, 1, true), Frame(1, 1, true), Frame(2, 0, true)];
    assert Seg.FirstFit(s0, 1, 0) == 0 && Seg.SplitAt(s0, 0, 0, 1) == s1;
    var r0 := [Span(1, 1, false), Span(2, 1, true), Span(3, 7, false)];
    assert Reg.FirstSuiting(r0, 1, 1, 0) == 0
      && Reg.SplitAt(r0, 0, 1, 1) == [Span(1, 1, true), Span(2, 1, true), Span(3, 7, false)];
    var ms := [Mapping(1, 1, 0, false), Rw(2, 1)];
    var s2 := [Frame(0, 2, true), Frame(1, 1, true), Frame(2, 0, true)];
    var s3 := [Frame(0, 2, true), Frame(1, 2, true), Frame(2, 0, true)];
    assert IndexOf(s1, 0, 0) == 0 && Share(s1, ms[0]) == s2;
    assert IndexOf(s2, 1, 0) == 1 && Share(s2, ms[1]) == s3;
    assert ms[1..] == [ms[1]] && ms[1..][1..] == [];
    assert Seg.FirstFit(s3, 1, 0) == 2;
  }

  lemma AtEnd(mem: seq<Page>)
    requires |mem| == 3
    ensures Looks(At(mem, 10), [Frame(0, 2, true), Frame(1, 2, true), Frame(2, 0, true)],
                  [Span(1, 1, true), Span(2, 1, true), Span(3, 7, false)], [Mapping(1, 1, 0, false), Rw(2, 1)])
  {
    hide At, Step, ShareAll, Seg.Alloc, Reg.Reserve, Inv;
    MarkedPages(mem);
    LastSteps();
    AtNext(mem, 8);
    AtNext(mem, 9);
    AtInv(mem, 9);
    MapLooks(At(mem, 8), [Frame(0, 0, true), Frame(1, 1, true), Frame(2, 0, true)],
             [Span(1, 1, false), Span(2, 1, true), Span(3, 7, false)], [Rw(2, 1)], 1, 0, false, true,
             [Frame(0, 1, true), Frame(1, 1, true), Frame(2, 0, true)],
             [Span(1, 1, true), Span(2, 1, true), Span(3, 7, false)]);
    assert [Mapping(1, 1, 0, false)] + [Rw(2, 1)] == [Mapping(1, 1, 0, false), Rw(2, 1)];
    ForkLooks(At(mem, 9), [Frame(0, 1, true), Frame(1, 1, true), Frame(2, 0, true)],
              [Span(1, 1, true), Span(2, 1, true), Span(3, 7, false)], [Mapping(1, 1, 0, false), Rw(2, 1)]);
  }

  /** From a booted memory a run of ordinary steps leads to a read-only page on which a write
      is taken for copy-on-write twice; the store itself is refused all along. */
  lemma FaultsTwice(mem: seq<Page>)
    requires |mem| == 3
    ensures var st := Run(SMALL, Booted(mem), OPS).0;
            && Inv(SMALL, Booted(mem), {})
            && Alive(st, 0) && 1 !in WritableOf(st.spaces[0].mappings)
            && WriteFault(st, 0, 1).Some?
            && WriteFault(WriteFault(st, 0, 1).value, 0, 1).Some?
            && WriteFault(WriteFault(WriteFault(st, 0, 1).value, 0, 1).value, 0, 1).None?
  {
    hide Run, Inv, Seg.Alloc, WriteFault;
    assert OPS[..10] == OPS && OPS[..0] == [];
    var st := At(mem, 10);
    AtEnd(mem);
    LastSteps();
    AtInv(mem, 10);
    assert Inv(SMALL, Booted(mem), {}) by { BootedInv(mem); }
    assert Locate(st.spaces[0].mappings, 1, 0) == 0;
    assert SegmentBehind(st, 0, 1) == Some(Seg.SegInfo(2, true)) by { BehindIs(st); }
    FirstFaultExact(SMALL, st, {}, 0, 1);
    SecondFaultExact(SMALL, st, {}, 0, 1);
    IllegalWriteKilled(SMALL, st, {}, 0, 1);
  }

  lemma BootedInv(mem: seq<Page>)
    requires |mem| == 3
    ensures Inv(SMALL, Booted(mem), {})
  {
    AtInv(mem, 0);
    assert OPS[..0] == [];
  }

  lemma BehindIs(st: State)
    requires Inv(SMALL, st, {}) && Alive(st, 0) && Locate(st.spaces[0].mappings, 1, 0) == 0 < |st.spaces[0].mappings|
    requires st.spaces[0].mappings[0].phy == 0 && st.segs != [] && st.segs[0] == Frame(0, 2, true)
    ensures SegmentBehind(st, 0, 1) == Some(Seg.SegInfo(2, true))
  {
    SegmentsOk(SMALL, st, {});
    TableAt(SMALL.lo, SMALL.hi, st.segs, st.segs[0]);
  }
}
