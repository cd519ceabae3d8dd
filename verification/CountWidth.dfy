// The reference count of a segment is 16 bits wide.  Only a fork counts up, and no space maps
// a segment twice, so with fewer than 65535 live spaces the count never wraps around.

module CountWidth {
  import opened Common
  import opened Tiling
  import opened SegmentMap
  import opened VirtualMemory
  import opened CowInvariant
  import opened CowSteps
  import opened CowRefinement
  import opened CowRuns
  import Seg = Segments
  import Reg = Regions

  const MAX_COUNT: nat := 65535

  // ----- Counting in 16 bits -----

  /** One more reference, in 16 bits. */
  function NarrowShare(segs: seq<Seg.Segment>, m: Mapping): seq<Seg.Segment> {
    var i := IndexOf(segs, m.phy, 0);
    if i == |segs| then segs
    else
      Retag(segs, m.phy, Seg.SegInfo((segs[i].tag.refs + 1) % (MAX_COUNT + 1), segs[i].tag.cow || m.write))
  }

  function NarrowShareAll(segs: seq<Seg.Segment>, ms: seq<Mapping>): seq<Seg.Segment>
    decreases |ms|
  {
    if ms == [] then segs else NarrowShareAll(NarrowShare(segs, ms[0]), ms[1..])
  }

  function NarrowFork(l: Layout, st: State, a: nat): Option<State>
    requires l.userBegin <= l.kernelBegin
  {
    var r := Fork(l, st, a);
    if r.None? then None else Some(r.value.(segs := NarrowShareAll(st.segs, st.spaces[a].mappings)))
  }

  /** A step with 16-bit counts: setting a count to 1, testing it and counting a positive one
      down are the same in any width. */
  function NarrowStep(l: Layout, st: State, op: Op): State
    requires l.userBegin <= l.kernelBegin
  {
    match op
    case ForkOp(a) =>
      var r := NarrowFork(l, st, a);
      if r.Some? then r.value else st
    case _ => Step(l, st, op).0
  }

  function NarrowRun(l: Layout, st: State, ops: seq<Op>): State
    requires l.userBegin <= l.kernelBegin
    decreases |ops|
  {
    if ops == [] then st else NarrowRun(l, NarrowStep(l, st, ops[0]), ops[1..])
  }

  /** While the counts fit, sharing is the same. */
  lemma {:induction false} NarrowShareAllAgrees(lo: nat, hi: nat, segs: seq<Seg.Segment>, ms: seq<Mapping>)
    requires Seg.Inv(lo, hi, segs)
    requires forall i :: 0 <= i < |ms| ==> ms[i].phy in Table(segs)
    requires forall b :: b in Table(segs) ==> Table(segs)[b].tag.refs + CountIn(ms, b) <= MAX_COUNT
    ensures NarrowShareAll(segs, ms) == ShareAll(segs, ms)
    decreases |ms|
  {
    hide Seg.Inv, Retag;
    if ms != [] {
      var m, t := ms[0], Table(segs);
      TableIndex(lo, hi, segs, m.phy);
      assert t[m.phy].tag.refs + CountIn(ms, m.phy) <= MAX_COUNT;
      assert NarrowShare(segs, m) == Share(segs, m);
      ShareTable(lo, hi, segs, m);
      hide Share, NarrowShare;
      forall b | b in Referenced(t, m) ensures Referenced(t, m)[b].tag.refs + CountIn(ms[1..], b) <= MAX_COUNT {
        assert b in t && t[b].tag.refs + CountIn(ms, b) <= MAX_COUNT;
      }
      NarrowShareAllAgrees(lo, hi, Share(segs, m), ms[1..]);
    }
  }

  // ----- No space maps a segment twice -----

  ghost predicate Once(ms: seq<Mapping>) {
    forall b: nat :: CountIn(ms, b) <= 1
  }

  ghost predicate AllOnce(spaces: seq<Space>) {
    forall a :: 0 <= a < |spaces| ==> Once(spaces[a].mappings)
  }

  /** A segment that is not in use is in no mapping. */
  lemma FreshInNone(l: Layout, st: State, pinned: set<nat>, a: nat, b: nat)
    requires Inv(l, st, pinned) && a < |st.spaces| && b !in Table(st.segs)
    ensures CountIn(st.spaces[a].mappings, b) == 0
  {
    FreshUncounted(l, st, pinned, b);
    CountUpdate(st.spaces, a, st.spaces[a], b);
  }

  /** A mapping of a fresh segment, new or in place of another, is the only one of it. */
  lemma FreshKeepsOnce(ms: seq<Mapping>, m: Mapping, i: nat)
    requires Once(ms) && CountIn(ms, m.phy) == 0
    ensures Once([m] + ms)
    ensures i < |ms| ==> Once(ms[i := m])
  {
    forall b: nat ensures CountIn([m] + ms, b) <= 1 {
      assert CountIn(ms, b) <= 1;
      assert ([m] + ms)[1..] == ms;
    }
    if i < |ms| {
      var ns := ms[i := m];
      forall b: nat ensures CountIn(ns, b) <= 1 {
        CountInUpdate(ms, i, m, b);
      }
    }
  }

  lemma MapKeepsOnce(l: Layout, st: State, pinned: set<nat>, a: nat, virt: nat, n: nat, write: bool)
    requires Inv(l, st, pinned) && AllOnce(st.spaces) && MapFresh(st, a, virt, n, write).Some?
    ensures AllOnce(MapFresh(st, a, virt, n, write).value.spaces)
  {
    hide Inv, Seg.Alloc, Reg.Reserve, Seg.Inv, Once, CountIn, Table, WithEntries;
    SegmentsOk(l, st, pinned);
    AllocTable(l.lo, l.hi, st.segs, n);
    var ns := MapFresh(st, a, virt, n, write).value.spaces[a].mappings;
    FreshInNone(l, st, pinned, a, ns[0].phy);
    FreshKeepsOnce(st.spaces[a].mappings, ns[0], 0);
  }

  /** What a handled fault does to the mappings. */
  lemma FaultMappings(st: State, a: nat, v: nat)
    requires WriteFault(st, a, v).Some?
    ensures Alive(st, a)
    ensures var ms, sps := st.spaces[a].mappings, WriteFault(st, a, v).value.spaces;
            var i := Locate(ms, v, 0);
            && i < |ms| && |sps| == |st.spaces| && sps == st.spaces[a := sps[a]]
            && (|| sps[a].mappings == ms
                || (&& Seg.Alloc(st.segs, ms[i].pages).1.Some?
                    && sps[a].mappings == ms[i := ms[i].(phy := Seg.Alloc(st.segs, ms[i].pages).1.value.base)]))
  {
    hide Seg.Alloc, Seg.Release, Locate, WithEntries, Retag, CopyPages;
  }

  lemma FaultKeepsOnce(l: Layout, st: State, pinned: set<nat>, a: nat, v: nat)
    requires Inv(l, st, pinned) && AllOnce(st.spaces) && WriteFault(st, a, v).Some?
    ensures AllOnce(WriteFault(st, a, v).value.spaces)
  {
    hide Inv, Seg.Alloc, Seg.Inv, WriteFault, Once, CountIn, Table;
    FaultMappings(st, a, v);
    var ms := st.spaces[a].mappings;
    var i := Locate(ms, v, 0);
    var ns := WriteFault(st, a, v).value.spaces[a].mappings;
    if ns != ms {
      SegmentsOk(l, st, pinned);
      MappingHasSize(l, st, pinned, a, i);
      AllocTable(l.lo, l.hi, st.segs, ms[i].pages);
      FreshInNone(l, st, pinned, a, ns[i].phy);
      FreshKeepsOnce(ms, ns[i], i);
    }
  }

  lemma MappingHasSize(l: Layout, st: State, pinned: set<nat>, a: nat, i: nat)
    requires Inv(l, st, pinned) && Alive(st, a) && i < |st.spaces[a].mappings|
    ensures st.spaces[a].mappings[i].pages > 0
  {
    hide Inv;
    MappingIsOk(l, st, pinned, a, i);
  }

  lemma UnmapKeepsOnce(st: State, a: nat, virt: nat)
    requires AllOnce(st.spaces)
    ensures AllOnce(Unmap(st, a, virt).spaces)
  {
    if Alive(st, a) {
      var ms := st.spaces[a].mappings;
      var i := MappingAt(ms, virt, 0);
      assert Once(ms);
      if i < |ms| {
        forall b: nat ensures CountIn(Without(ms, i), b) <= 1 {
          CountInSplit(ms, i, b);
        }
      }
    }
  }

  lemma ForkKeepsOnce(l: Layout, st: State, a: nat)
    requires l.userBegin <= l.kernelBegin && AllOnce(st.spaces) && Fork(l, st, a).Some?
    ensures AllOnce(Fork(l, st, a).value.spaces)
  {
    var ms := st.spaces[a].mappings;
    assert Once(ms);
    forall b: nat ensures CountIn(Reversed(ms), b) <= 1 {
      CountInReversed(ms, b);
    }
  }

  lemma StepKeepsOnce(l: Layout, st: State, pinned: set<nat>, op: Op)
    requires Inv(l, st, pinned) && AllOnce(st.spaces)
    ensures l.userBegin <= l.kernelBegin && AllOnce(Step(l, st, op).0.spaces)
  {
    LayoutOk(l, st, pinned);
    hide Inv, Once, MapFresh, Fork, WriteFault, Unmap;
    match op
    case CreateOp => assert Once([]);
    case MapOp(a, virt, n, write) =>
      if MapFresh(st, a, virt, n, write).Some? { MapKeepsOnce(l, st, pinned, a, virt, n, write); }
    case UnmapOp(a, virt) => UnmapKeepsOnce(st, a, virt);
    case ForkOp(a) => if Fork(l, st, a).Some? { ForkKeepsOnce(l, st, a); }
    case ExitOp(a) => assert Once([]);
    case FaultOp(a, v) => if WriteFault(st, a, v).Some? { FaultKeepsOnce(l, st, pinned, a, v); }
    case StoreOp(a, v, off, b) =>
  }

  // ----- The bound -----

  /** How many spaces are alive. */
  function Living(spaces: seq<Space>): nat {
    if spaces == [] then 0 else (if spaces[0].alive then 1 else 0) + Living(spaces[1..])
  }

  /** A segment is mapped at most once by every living space. */
  lemma {:induction false} CountBound(spaces: seq<Space>, b: nat)
    requires AllOnce(spaces) && forall a :: 0 <= a < |spaces| && !spaces[a].alive ==> spaces[a] == DEAD
    ensures Count(spaces, b) <= Living(spaces)
    decreases |spaces|
  {
    if spaces != [] {
      assert Once(spaces[0].mappings);
      assert forall a :: 0 <= a < |spaces[1..]| ==> spaces[1..][a] == spaces[a + 1];
      CountBound(spaces[1..], b);
    }
  }

  /** So no count exceeds the number of living spaces, and the hold of the kernel. */
  lemma RefsBound(l: Layout, st: State, pinned: set<nat>, b: nat)
    requires Inv(l, st, pinned) && AllOnce(st.spaces) && b in Table(st.segs)
    ensures Table(st.segs)[b].tag.refs <= Living(st.spaces) + 1
  {
    CountBound(st.spaces, b);
  }

  /** With fewer than 65535 spaces afterwards, a fork in 16 bits is the fork. */
  lemma NarrowForkAgrees(l: Layout, st: State, pinned: set<nat>, a: nat)
    requires Inv(l, st, pinned) && AllOnce(st.spaces) && Fork(l, st, a).Some?
    requires Living(Fork(l, st, a).value.spaces) < MAX_COUNT
    ensures NarrowFork(l, st, a) == Fork(l, st, a)
  {
    var st', ms := Fork(l, st, a).value, st.spaces[a].mappings;
    SegmentsOk(l, st, pinned);
    ForkKeepsInv(l, st, pinned, a);
    ForkKeepsOnce(l, st, a);
    hide Inv, Seg.Inv, ReserveAll;
    forall i | 0 <= i < |ms| ensures ms[i].phy in Table(st.segs) {
      MappingIsOk(l, st, pinned, a, i);
    }
    ShareAllTable(l.lo, l.hi, st.segs, ms);
    forall b | b in Table(st.segs) ensures Table(st.segs)[b].tag.refs + CountIn(ms, b) <= MAX_COUNT {
      RefsBound(l, st', pinned, b);
    }
    NarrowShareAllAgrees(l.lo, l.hi, st.segs, ms);
  }

  lemma NarrowStepAgrees(l: Layout, st: State, pinned: set<nat>, op: Op)
    requires Inv(l, st, pinned) && AllOnce(st.spaces)
    ensures l.userBegin <= l.kernelBegin
    ensures Living(Step(l, st, op).0.spaces) < MAX_COUNT ==> NarrowStep(l, st, op) == Step(l, st, op).0
  {
    LayoutOk(l, st, pinned);
    hide Inv, Fork, NarrowFork;
    if op.ForkOp? && Fork(l, st, op.space).Some? && Living(Step(l, st, op).0.spaces) < MAX_COUNT {
      NarrowForkAgrees(l, st, pinned, op.space);
    }
  }

  /** There are never 65535 living spaces. */
  ghost predicate FewSpaces(l: Layout, st: State, ops: seq<Op>)
    requires l.userBegin <= l.kernelBegin
    decreases |ops|
  {
    ops == [] || (Living(Step(l, st, ops[0]).0.spaces) < MAX_COUNT && FewSpaces(l, Step(l, st, ops[0]).0, ops[1..]))
  }

  /** With fewer than 65535 living spaces all along, 16-bit counts are exact. */
  lemma {:induction false} NarrowRunAgrees(l: Layout, st: State, pinned: set<nat>, ops: seq<Op>)
    requires Inv(l, st, pinned) && AllOnce(st.spaces) && l.userBegin <= l.kernelBegin && FewSpaces(l, st, ops)
    ensures NarrowRun(l, st, ops) == Run(l, st, ops).0
    decreases |ops|
  {
    hide Inv, Step, NarrowStep, AllOnce;
    if ops != [] {
      NarrowStepAgrees(l, st, pinned, ops[0]);
      StepKeepsInv(l, st, pinned, ops[0]);
      StepKeepsOnce(l, st, pinned, ops[0]);
      NarrowRunAgrees(l, Step(l, st, ops[0]).0, pinned, ops[1..]);
    }
  }

  // ----- Told from the operations -----

  predicate Births(op: Op) {
    op.CreateOp? || op.ForkOp?
  }

  /** How many operations of a run can bring a space to life. */
  function BirthCount(ops: seq<Op>): nat {
    if ops == [] then 0 else (if Births(ops[0]) then 1 else 0) + BirthCount(ops[1..])
  }

  lemma {:induction false} LivingAppend(spaces: seq<Space>, sp: Space)
    ensures Living(spaces + [sp]) == Living(spaces) + if sp.alive then 1 else 0
    decreases |spaces|
  {
    if spaces == [] {
      assert [sp][1..] == [];
    } else {
      assert (spaces + [sp])[1..] == spaces[1..] + [sp];
      LivingAppend(spaces[1..], sp);
    }
  }

  lemma {:induction false} LivingUpdate(spaces: seq<Space>, a: nat, sp: Space)
    requires a < |spaces| && spaces[a].alive
    ensures Living(spaces[a := sp]) <= Living(spaces)
    decreases |spaces|
  {
    if a > 0 {
      assert spaces[a := sp][1..] == spaces[1..][a - 1 := sp];
      LivingUpdate(spaces[1..], a - 1, sp);
    } else {
      assert spaces[a := sp][1..] == spaces[1..];
    }
  }

  lemma StepLiving(l: Layout, st: State, op: Op)
    requires l.userBegin <= l.kernelBegin
    ensures Living(Step(l, st, op).0.spaces) <= Living(st.spaces) + if Births(op) then 1 else 0
  {
    hide Seg.Alloc, Seg.Release, ReserveAll, ShareAll, ReleaseAll, Reg.Reserve, Reg.Release;
    var after := Step(l, st, op).0.spaces;
    match op
    case CreateOp => LivingAppend(st.spaces, FreshSpace(l));
    case ForkOp(a) =>
      if Fork(l, st, a).Some? {
        LivingUpdate(st.spaces, a, after[a]);
        LivingAppend(st.spaces[a := after[a]], after[|st.spaces|]);
      }
    case StoreOp(_, _, _, _) =>
    case _ => if Alive(st, op.space) && after != st.spaces { LivingUpdate(st.spaces, op.space, after[op.space]); }
  }

  lemma {:induction false} FewBirths(l: Layout, st: State, ops: seq<Op>)
    requires l.userBegin <= l.kernelBegin && Living(st.spaces) + BirthCount(ops) < MAX_COUNT
    ensures FewSpaces(l, st, ops)
    decreases |ops|
  {
    hide Step;
    if ops != [] {
      StepLiving(l, st, ops[0]);
      FewBirths(l, Step(l, st, ops[0]).0, ops[1..]);
    }
  }

  /** From a booted memory, 16-bit counts are exact and copy-on-write is invisible in every
      run with fewer than 65535 creations and forks. */
  lemma NarrowCountsInvisible(l: Layout, st: State, pinned: set<nat>, ops: seq<Op>, a: nat, v: nat, off: nat)
    requires Inv(l, st, pinned) && st.spaces == [] && BirthCount(ops) < MAX_COUNT
    ensures l.userBegin <= l.kernelBegin && NarrowRun(l, st, ops) == Run(l, st, ops).0
    ensures AllEnabled(View(st), Run(l, st, ops).1)
    ensures Load(NarrowRun(l, st, ops), a, v, off) == EagerLoad(PerformAll(View(st), Run(l, st, ops).1), a, v, off)
  {
    LayoutOk(l, st, pinned);
    hide Inv, Run, NarrowRun, View, Load, EagerLoad, PerformAll, AllEnabled, FewSpaces;
    FewBirths(l, st, ops);
    NarrowRunAgrees(l, st, pinned, ops);
    CopyOnWriteIsInvisible(l, st, pinned, ops, a, v, off);
  }
}
