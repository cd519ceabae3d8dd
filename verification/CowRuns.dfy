// Whole runs of the virtual memory, and what user programs can rely on.

module CowRuns {
  import opened Common
  import opened Tiling
  import opened SegmentMap
  import opened VirtualMemory
  import opened CowInvariant
  import opened CowSteps
  import opened CowRefinement
  import Seg = Segments
  import Reg = Regions

  datatype Op =
    | CreateOp
    | MapOp(space: nat, virt: nat, pages: nat, write: bool)
    | UnmapOp(space: nat, virt: nat)
    | ForkOp(space: nat)
    | ExitOp(space: nat)
    | FaultOp(space: nat, page: nat)
    | StoreOp(space: nat, page: nat, off: nat, byte: int)

  /** One operation: the new state and what the eager machine does for it. An operation that
      is refused (no memory, a fault, a killed process) shows nothing. */
  function Step(l: Layout, st: State, op: Op): (State, Event)
    requires l.userBegin <= l.kernelBegin
  {
    match op
    case CreateOp => (Create(l, st), Created)
    case MapOp(a, virt, n, write) =>
      var r := MapFresh(st, a, virt, n, write);
      if r.Some? then (r.value, MapEvent(r.value, a, virt, n, write)) else (MapFailed(st, a, virt, n), Nothing)
    case UnmapOp(a, virt) =>
      if !Alive(st, a) then (st, Nothing)
      else
        var ms := st.spaces[a].mappings;
        var i := MappingAt(ms, virt, 0);
        (Unmap(st, a, virt), if i < |ms| then UnmappedAt(a, virt, ms[i].pages) else Nothing)
    case ForkOp(a) =>
      var r := Fork(l, st, a);
      if r.Some? then (r.value, Forked(a)) else (st, Nothing)
    case ExitOp(a) => (Exit(st, a), if Alive(st, a) then Exited(a) else Nothing)
    case FaultOp(a, v) =>
      var r := WriteFault(st, a, v);
      (if r.Some? then r.value else st, Nothing)
    case StoreOp(a, v, off, b) =>
      var r := Store(st, a, v, off, b);
      if r.Some? then (r.value, Stored(a, v, off, b)) else (st, Nothing)
  }

  function Run(l: Layout, st: State, ops: seq<Op>): (State, seq<Event>)
    requires l.userBegin <= l.kernelBegin
    decreases |ops|
  {
    if ops == [] then (st, [])
    else
      var (st1, ev) := Step(l, st, ops[0]);
      var (st2, evs) := Run(l, st1, ops[1..]);
      (st2, [ev] + evs)
  }

  predicate AllEnabled(es: seq<Eager>, evs: seq<Event>)
    decreases |evs|
  {
    evs == [] || (Enabled(es, evs[0]) && AllEnabled(Perform(es, evs[0]), evs[1..]))
  }

  function PerformAll(es: seq<Eager>, evs: seq<Event>): seq<Eager>
    requires AllEnabled(es, evs)
    decreases |evs|
  {
    if evs == [] then es else PerformAll(Perform(es, evs[0]), evs[1..])
  }

  lemma StepKeepsInv(l: Layout, st: State, pinned: set<nat>, op: Op)
    requires Inv(l, st, pinned)
    ensures Inv(l, Step(l, st, op).0, pinned)
  {
    hide Inv;
    assert l.userBegin <= l.kernelBegin by { LayoutOk(l, st, pinned); }
    match op
    case CreateOp => CreateKeepsInv(l, st, pinned);
    case MapOp(a, virt, n, write) =>
      if MapFresh(st, a, virt, n, write).Some? {
        MapFreshKeepsInv(l, st, pinned, a, virt, n, write);
      } else {
        MapFailedKeepsInv(l, st, pinned, a, virt, n);
      }
    case UnmapOp(a, virt) => UnmapKeepsInv(l, st, pinned, a, virt);
    case ForkOp(a) => if Alive(st, a) { ForkKeepsInv(l, st, pinned, a); }
    case ExitOp(a) => ExitKeepsInv(l, st, pinned, a);
    case FaultOp(a, v) => if WriteFault(st, a, v).Some? { WriteFaultKeepsInv(l, st, pinned, a, v); }
    case StoreOp(a, v, off, b) => if Store(st, a, v, off, b).Some? { StoreKeepsInv(l, st, pinned, a, v, off, b); }
  }

  lemma LayoutOk(l: Layout, st: State, pinned: set<nat>)
    requires Inv(l, st, pinned)
    ensures 0 < l.userBegin < l.kernelBegin
  {
  }

  lemma CreateRefines(l: Layout, st: State)
    requires l.userBegin <= l.kernelBegin
    ensures View(Create(l, st)) == Perform(View(st), Created)
  {
    assert PagesOf(FreshSpace(l), st.mem) == map[];
    assert WritableOf([]) == {};
  }

  lemma MapFailedShowsNothing(st: State, a: nat, virt: nat, n: nat)
    ensures View(MapFailed(st, a, virt, n)) == View(st)
  {
    hide Reg.Reserve, Reg.Release, PagesOf, WritableOf;
    var st' := MapFailed(st, a, virt, n);
    forall c | 0 <= c < |st.spaces| ensures ViewOf(st'.spaces[c], st'.mem) == ViewOf(st.spaces[c], st.mem) {
      SamePages(st'.spaces[c], st.spaces[c], st.mem, st.mem);
    }
  }

  lemma StepRefines(l: Layout, st: State, pinned: set<nat>, op: Op)
    requires Inv(l, st, pinned)
    ensures var (st', ev) := Step(l, st, op);
            Enabled(View(st), ev) && View(st') == Perform(View(st), ev)
  {
    hide Inv, View, MapFresh, MapFailed, WriteFault, Store, MapEvent, ReserveAll, ShareAll, ReleaseAll;
    assert l.userBegin <= l.kernelBegin by { LayoutOk(l, st, pinned); }
    match op
    case CreateOp => CreateRefines(l, st);
    case MapOp(a, virt, n, write) =>
      if MapFresh(st, a, virt, n, write).Some? {
        MapFreshRefines(l, st, pinned, a, virt, n, write);
      } else {
        MapFailedShowsNothing(st, a, virt, n);
      }
    case UnmapOp(a, virt) => if Alive(st, a) { UnmapRefines(l, st, pinned, a, virt); }
    case ForkOp(a) => if Alive(st, a) { ForkRefines(l, st, pinned, a); }
    case ExitOp(a) => if Alive(st, a) { ExitRefines(st, a); }
    case FaultOp(a, v) => if WriteFault(st, a, v).Some? { WriteFaultRefines(l, st, pinned, a, v); }
    case StoreOp(a, v, off, b) => if Store(st, a, v, off, b).Some? { StoreRefines(l, st, pinned, a, v, off, b); }
  }

  /** Every run keeps the invariant and shows what the eager machine shows. */
  lemma {:induction false} RunRefines(l: Layout, st: State, pinned: set<nat>, ops: seq<Op>)
    requires Inv(l, st, pinned)
    ensures var (st', evs) := Run(l, st, ops);
            && Inv(l, st', pinned)
            && AllEnabled(View(st), evs)
            && View(st') == PerformAll(View(st), evs)
    decreases |ops|
  {
    hide Inv, View, Step, Perform, Enabled;
    assert l.userBegin <= l.kernelBegin by { LayoutOk(l, st, pinned); }
    if ops != [] {
      var (st1, ev) := Step(l, st, ops[0]);
      StepKeepsInv(l, st, pinned, ops[0]);
      StepRefines(l, st, pinned, ops[0]);
      RunRefines(l, st1, pinned, ops[1..]);
      var evs := Run(l, st1, ops[1..]).1;
      assert ([ev] + evs)[1..] == evs;
    }
  }

  /** What a load finds in the eager machine. */
  function EagerLoad(es: seq<Eager>, a: nat, v: nat, off: nat): Option<int> {
    if a < |es| && v in es[a].pages && off < PAGE_SIZE then Some(es[a].pages[v][off]) else None
  }

  /** After every run, every address space reads exactly what it would read if forking had
      copied all its pages at once. */
  lemma CopyOnWriteIsInvisible(l: Layout, st: State, pinned: set<nat>, ops: seq<Op>, a: nat, v: nat, off: nat)
    requires Inv(l, st, pinned)
    ensures AllEnabled(View(st), Run(l, st, ops).1)
    ensures Load(Run(l, st, ops).0, a, v, off) == EagerLoad(PerformAll(View(st), Run(l, st, ops).1), a, v, off)
  {
    RunRefines(l, st, pinned, ops);
    var st' := Run(l, st, ops).0;
    if a < |st'.spaces| && !st'.spaces[a].alive { assert st'.spaces[a] == DEAD; }
  }

  // ----- Writing -----

  /** The mapping of space `a` behind page `v`. */
  function MappingBehind(st: State, a: nat, v: nat): Option<Mapping> {
    if !Alive(st, a) then None
    else
      var i := Locate(st.spaces[a].mappings, v, 0);
      if i < |st.spaces[a].mappings| then Some(st.spaces[a].mappings[i]) else None
  }

  /** In every state that a run reaches: the mapping behind an entry, the segment it points
      into, whose references are counted by the mappings, and who may write. */
  lemma SharingDiscipline(l: Layout, st: State, pinned: set<nat>, ops: seq<Op>, a: nat, v: nat)
    requires Inv(l, st, pinned)
    ensures var st' := Run(l, st, ops).0;
            Alive(st', a) && v in st'.spaces[a].ptes ==>
              && MappingBehind(st', a, v).Some?
              && var m := MappingBehind(st', a, v).value;
                 var p := st'.spaces[a].ptes[v];
                 && m.phy in Table(st'.segs)
                 && var x := Table(st'.segs)[m.phy];
                 && x.tag.refs == Count(st'.spaces, m.phy) + (if m.phy in pinned then 1 else 0)
                 && x.Covers(p.frame)
                 && (p.write ==> m.write && x.tag.refs == 1)
                 && (m.write && !p.write ==> x.tag.cow)
  {
    RunRefines(l, st, pinned, ops);
    var st' := Run(l, st, ops).0;
    hide Run;
    if Alive(st', a) && v in st'.spaces[a].ptes {
      SpaceIsOk(l, st', pinned, a);
      var i := Locate(st'.spaces[a].mappings, v, 0);
      MappingIsOk(l, st', pinned, a, i);
      var m := st'.spaces[a].mappings[i];
      assert EntryOk(Table(st'.segs)[m.phy], st'.spaces[a].ptes, m, v);
    }
  }

  /** A store to a page of a writable mapping goes through at once, or after exactly one
      fault; that fault needs memory for a copy only if the segment is shared. */
  lemma LegalWriteSucceeds(l: Layout, st: State, pinned: set<nat>, a: nat, v: nat, off: nat, b: int)
    requires Inv(l, st, pinned) && MappingBehind(st, a, v).Some? && MappingBehind(st, a, v).value.write
    requires off < PAGE_SIZE
    requires var m := MappingBehind(st, a, v).value;
             (Count(st.spaces, m.phy) == 1 && m.phy !in pinned) || Seg.Alloc(st.segs, m.pages).1.Some?
    ensures || Store(st, a, v, off, b).Some?
            || (WriteFault(st, a, v).Some? && Store(WriteFault(st, a, v).value, a, v, off, b).Some?)
  {
    var sp := st.spaces[a];
    var i := Locate(sp.mappings, v, 0);
    var m := sp.mappings[i];
    MappingIsOk(l, st, pinned, a, i);
    assert EntryOk(Table(st.segs)[m.phy], sp.ptes, m, v);
    if !Writable(st, a, v) { FaultMakesWritable(l, st, pinned, a, v); }
  }

  lemma FaultMakesWritable(l: Layout, st: State, pinned: set<nat>, a: nat, v: nat)
    requires Inv(l, st, pinned) && Alive(st, a)
    requires var i := Locate(st.spaces[a].mappings, v, 0);
             && i < |st.spaces[a].mappings|
             && var m := st.spaces[a].mappings[i];
             && m.write && m.phy in Table(st.segs) && Table(st.segs)[m.phy].tag.cow
             && (Table(st.segs)[m.phy].tag.refs == 1 || Seg.Alloc(st.segs, m.pages).1.Some?)
    ensures WriteFault(st, a, v).Some? && Writable(WriteFault(st, a, v).value, a, v)
  {
    hide Inv, Seg.Alloc, Seg.Release, WithEntries;
    var sp := st.spaces[a];
    var i := Locate(sp.mappings, v, 0);
    var m := sp.mappings[i];
    MappingIsOk(l, st, pinned, a, i);
    SegmentsOk(l, st, pinned);
    TableIndex(l.lo, l.hi, st.segs, m.phy);
    EntryAt(sp.ptes, m, v);
    if Table(st.segs)[m.phy].tag.refs != 1 {
      AllocBounds(l, st.segs, m.pages);
      EntryAt(sp.ptes, m.(phy := Seg.Alloc(st.segs, m.pages).1.value.base), v);
    }
  }

  /** A page outside the writable mappings is never writable, whatever faults are handled. */
  lemma IllegalWriteRefused(l: Layout, st: State, pinned: set<nat>, a: nat, v: nat, off: nat, b: int)
    requires Inv(l, st, pinned) && Alive(st, a) && v !in WritableOf(st.spaces[a].mappings)
    ensures Store(st, a, v, off, b).None?
  {
    if Store(st, a, v, off, b).Some? { StoreRefines(l, st, pinned, a, v, off, b); }
  }

  /** Faults on a page that is mapped without write permission go on for at most two rounds;
      the third kills the process. A mark left over from an earlier use of the frames is
      what lets the first two through. */
  lemma IllegalWriteKilled(l: Layout, st: State, pinned: set<nat>, a: nat, v: nat)
    requires Inv(l, st, pinned) && Alive(st, a)
    ensures var s1 := WriteFault(st, a, v);
            s1.None? || var s2 := WriteFault(s1.value, a, v);
                        s2.None? || WriteFault(s2.value, a, v).None?
  {
    hide Inv;
    var s1 := WriteFault(st, a, v);
    if s1.Some? {
      WriteFaultKeepsInv(l, st, pinned, a, v);
      FaultRound(l, st, pinned, a, v);
      if WriteFault(s1.value, a, v).Some? {
        FaultRound(l, s1.value, pinned, a, v);
      }
    }
  }

  /** The record of the segment behind page `v` of space `a`. */
  ghost function SegmentBehind(st: State, a: nat, v: nat): Option<Seg.SegInfo> {
    if Alive(st, a) && Locate(st.spaces[a].mappings, v, 0) < |st.spaces[a].mappings|
       && st.spaces[a].mappings[Locate(st.spaces[a].mappings, v, 0)].phy in Table(st.segs)
    then Some(Table(st.segs)[st.spaces[a].mappings[Locate(st.spaces[a].mappings, v, 0)].phy].tag) else None
  }

  lemma FaultRound(l: Layout, st: State, pinned: set<nat>, a: nat, v: nat)
    requires Inv(l, st, pinned) && WriteFault(st, a, v).Some?
    ensures Alive(WriteFault(st, a, v).value, a)
    ensures SegmentBehind(st, a, v).Some? && SegmentBehind(WriteFault(st, a, v).value, a, v).Some?
    ensures SegmentBehind(WriteFault(st, a, v).value, a, v).value.refs == 1
    ensures SegmentBehind(st, a, v).value.refs == 1 ==>
              !SegmentBehind(WriteFault(st, a, v).value, a, v).value.cow
              && WriteFault(WriteFault(st, a, v).value, a, v).None?
  {
    hide Inv, Seg.Alloc, Seg.Release, WithEntries, Retag;
    var sp := st.spaces[a];
    var i := Locate(sp.mappings, v, 0);
    var m := sp.mappings[i];
    var st' := WriteFault(st, a, v).value;
    MappingIsOk(l, st, pinned, a, i);
    SegmentsOk(l, st, pinned);
    TableIndex(l.lo, l.hi, st.segs, m.phy);
    var x := Table(st.segs)[m.phy];
    if x.tag.refs == 1 {
      RetagTable(l.lo, l.hi, st.segs, m.phy, x.tag.(cow := false));
      TableIndex(l.lo, l.hi, st'.segs, m.phy);
    } else {
      AllocTable(l.lo, l.hi, st.segs, m.pages);
      ReleaseTable(l.lo, l.hi, Seg.Alloc(st.segs, m.pages).0, m.phy);
      LocateRenewed(sp.mappings, i, m.(phy := Seg.Alloc(st.segs, m.pages).1.value.base), v);
    }
  }

  lemma LocateRenewed(ms: seq<Mapping>, i: nat, m: Mapping, v: nat)
    requires i < |ms| && m == ms[i].(phy := m.phy) && Locate(ms, v, 0) == i
    ensures Locate(ms[i := m], v, 0) == i
  {
    var ns := ms[i := m];
    var k := Locate(ns, v, 0);
    assert ns[i].Covers(v) && forall j :: 0 <= j < i ==> !ns[j].Covers(v);
  }

  // ----- Physical memory comes back -----

  /** Without mappings only the segments of the kernel are in use; if there are none either,
      all of physical memory is one free segment. */
  lemma AllPagesReturn(l: Layout, st: State, pinned: set<nat>)
    requires Inv(l, st, pinned) && l.lo < l.hi
    requires forall a :: 0 <= a < |st.spaces| ==> st.spaces[a].mappings == []
    ensures Table(st.segs).Keys == pinned
    ensures pinned == {} ==> |st.segs| == 1 && Seg.IsFree(st.segs[0])
                             && st.segs[0].base == l.lo && st.segs[0].size == l.hi - l.lo
  {
    var t := Table(st.segs);
    forall b | b in t ensures b in pinned {
      NoneInAny(st.spaces, b);
      TableBounds(l.lo, l.hi, st.segs, b);
    }
    if pinned == {} {
      forall x | x in Seg.InUse(st.segs) ensures false { TableAt(l.lo, l.hi, st.segs, x); }
      assert Seg.InUse(st.segs) == {};
      NothingBusy(Seg.Unused, l.lo, l.hi, st.segs);
    }
  }

  /** Booting: no address space yet, and every segment in use is held once by the kernel. */
  lemma BootInv(l: Layout, segs: seq<Seg.Segment>, mem: seq<Page>)
    requires 0 < l.userBegin < l.kernelBegin && Seg.Inv(l.lo, l.hi, segs) && l.hi <= |mem|
    requires forall x :: x in Seg.InUse(segs) ==> x.tag.refs == 1
    ensures Inv(l, State(segs, [], mem), Table(segs).Keys)
  {
  }
}
