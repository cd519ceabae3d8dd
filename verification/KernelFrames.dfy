// Frames that the kernel takes for itself while processes run: page directories, page tables
// and the like.  They come and go between the operations of the processes and show nowhere.

module KernelFrames {
  import opened Common
  import opened Tiling
  import opened SegmentMap
  import opened VirtualMemory
  import opened CowInvariant
  import opened CowSteps
  import opened CowRefinement
  import opened CowRuns
  import Seg = Segments
  import Reg = Regions

  /** An operation of a process, or one by which the kernel takes a segment, takes over that of
      a mapping, writes a page of one it holds alone, or gives one up. */
  datatype KernelOp =
    | User(op: Op)
    | Hold(pages: nat)
    | TakeOver(space: nat, virt: nat)
    | Fill(base: nat, k: nat, page: Page)
    | Drop(base: nat)

  /** The memory, and the segments that the kernel holds a reference to. */
  datatype Machine = Machine(st: State, held: set<nat>)

  function HoldFrames(m: Machine, n: nat): Machine {
    var (segs, seg) := Seg.Alloc(m.st.segs, n);
    if n == 0 || seg.None? then m else Machine(m.st.(segs := segs), m.held + {seg.value.base})
  }

  /** The segment of the mapping at `virt`, if the kernel does not hold it already. */
  function ToTakeOver(m: Machine, a: nat, virt: nat): Option<nat> {
    if !Alive(m.st, a) then None
    else
      var ms := m.st.spaces[a].mappings;
      var i := MappingAt(ms, virt, 0);
      if i < |ms| && ms[i].phy !in m.held then Some(ms[i].phy) else None
  }

  function FillFrame(m: Machine, b: nat, k: nat, page: Page): Machine {
    var i := IndexOf(m.st.segs, b, 0);
    if b in m.held && i < |m.st.segs| && m.st.segs[i].tag.refs == 1 && k < m.st.segs[i].size && b + k < |m.st.mem| then
      m.(st := m.st.(mem := m.st.mem[b + k := page]))
    else m
  }

  function DropFrames(m: Machine, b: nat): Machine {
    if b in m.held then Machine(m.st.(segs := Seg.Release(m.st.segs, b)), m.held - {b}) else m
  }

  function KernelStep(l: Layout, m: Machine, op: KernelOp): (Machine, Event)
    requires l.userBegin <= l.kernelBegin
  {
    match op
    case User(o) =>
      var (st, ev) := Step(l, m.st, o);
      (m.(st := st), ev)
    case Hold(n) => (HoldFrames(m, n), Nothing)
    case TakeOver(a, virt) =>
      var b := ToTakeOver(m, a, virt);
      if b.None? then (m, Nothing)
      else (Machine(Leave(m.st, a, virt), m.held + {b.value}), Step(l, m.st, UnmapOp(a, virt)).1)
    case Fill(b, k, page) => (FillFrame(m, b, k, page), Nothing)
    case Drop(b) => (DropFrames(m, b), Nothing)
  }

  function KernelRun(l: Layout, m: Machine, ops: seq<KernelOp>): (Machine, seq<Event>)
    requires l.userBegin <= l.kernelBegin
    decreases |ops|
  {
    if ops == [] then (m, [])
    else
      var (m1, ev) := KernelStep(l, m, ops[0]);
      var (m2, evs) := KernelRun(l, m1, ops[1..]);
      (m2, [ev] + evs)
  }

  /** New segments and holds keep the invariant when all mapped segments are stable. */
  lemma SegmentsKeepInv(l: Layout, st: State, held: set<nat>, segs: seq<Seg.Segment>, held': set<nat>)
    requires Inv(l, st, held) && Seg.Inv(l.lo, l.hi, segs) && RefsOk(Table(segs), st.spaces, held')
    requires forall a, i :: 0 <= a < |st.spaces| && 0 <= i < |st.spaces[a].mappings| ==>
               Stable(Table(st.segs), Table(segs), st.spaces[a].mappings[i].phy)
    ensures Inv(l, st.(segs := segs), held')
  {
    hide Seg.Inv, Stable;
    forall a | 0 <= a < |st.spaces| && st.spaces[a].alive ensures SpaceOk(l, Table(segs), st.spaces[a]) {
      SpaceStable(l, Table(st.segs), Table(segs), st.spaces[a]);
    }
  }

  lemma MappedIsKnown(l: Layout, st: State, held: set<nat>, a: nat, i: nat)
    requires Inv(l, st, held) && a < |st.spaces| && i < |st.spaces[a].mappings|
    ensures st.spaces[a].alive && st.spaces[a].mappings[i].phy in Table(st.segs)
    ensures Count(st.spaces, st.spaces[a].mappings[i].phy) > 0
  {
    var b := st.spaces[a].mappings[i].phy;
    assert st.spaces[a].alive;
    MappingIsOk(l, st, held, a, i);
    CountInSplit(st.spaces[a].mappings, i, b);
    CountUpdate(st.spaces, a, DEAD, b);
  }

  lemma ViewOfSegments(st: State, segs: seq<Seg.Segment>)
    ensures View(st.(segs := segs)) == View(st)
  {
  }

  lemma RefsCounted(l: Layout, st: State, held: set<nat>)
    requires Inv(l, st, held)
    ensures RefsOk(Table(st.segs), st.spaces, held) && Seg.Inv(l.lo, l.hi, st.segs)
  {
  }

  lemma HoldRefs(t: map<nat, Seg.Segment>, x: Seg.Segment, spaces: seq<Space>, held: set<nat>)
    requires RefsOk(t, spaces, held) && x.base !in t && x.tag.refs == 1 && Count(spaces, x.base) == 0
    ensures RefsOk(t[x.base := x], spaces, held + {x.base})
    ensures forall c :: c in t ==> Stable(t, t[x.base := x], c)
  {
    hide Count;
  }

  lemma HoldKeepsInv(l: Layout, m: Machine, n: nat)
    requires Inv(l, m.st, m.held)
    ensures var r := HoldFrames(m, n);
            Inv(l, r.st, r.held) && View(r.st) == View(m.st)
  {
    hide Inv, Seg.Alloc, Seg.Inv, Stable, RefsOk, View, Table;
    var (segs, seg) := Seg.Alloc(m.st.segs, n);
    if n > 0 && seg.Some? {
      RefsCounted(l, m.st, m.held);
      var x, t := seg.value, Table(m.st.segs);
      AllocTable(l.lo, l.hi, m.st.segs, n);
      FreshUncounted(l, m.st, m.held, x.base);
      HoldRefs(t, x, m.st.spaces, m.held);
      forall a, i | 0 <= a < |m.st.spaces| && 0 <= i < |m.st.spaces[a].mappings|
        ensures Stable(t, Table(segs), m.st.spaces[a].mappings[i].phy)
      {
        MappedIsKnown(l, m.st, m.held, a, i);
      }
      SegmentsKeepInv(l, m.st, m.held, segs, m.held + {x.base});
      ViewOfSegments(m.st, segs);
    }
  }

  lemma DropRefs(t: map<nat, Seg.Segment>, t': map<nat, Seg.Segment>, spaces: seq<Space>, held: set<nat>, b: nat)
    requires RefsOk(t, spaces, held) && b in held
    requires t' == if t[b].tag.refs == 1 then t - {b} else t[b := WithRefs(t[b], t[b].tag.refs - 1)]
    ensures RefsOk(t', spaces, held - {b})
    ensures forall c :: c in t && (c == b ==> Count(spaces, b) > 0) ==> Stable(t, t', c)
  {
    hide Count;
    assert t[b].tag.refs == Count(spaces, b) + 1;
  }

  lemma DropKeepsInv(l: Layout, m: Machine, b: nat)
    requires Inv(l, m.st, m.held)
    ensures var r := DropFrames(m, b);
            Inv(l, r.st, r.held) && View(r.st) == View(m.st)
  {
    hide Inv, Seg.Release, Seg.Inv, Stable, RefsOk, View, Table;
    if b in m.held {
      var segs, t := Seg.Release(m.st.segs, b), Table(m.st.segs);
      RefsCounted(l, m.st, m.held);
      HeldKnown(l, m, b);
      ReleaseTable(l.lo, l.hi, m.st.segs, b);
      DropRefs(t, Table(segs), m.st.spaces, m.held, b);
      forall a, i | 0 <= a < |m.st.spaces| && 0 <= i < |m.st.spaces[a].mappings|
        ensures Stable(t, Table(segs), m.st.spaces[a].mappings[i].phy)
      {
        MappedIsKnown(l, m.st, m.held, a, i);
      }
      SegmentsKeepInv(l, m.st, m.held, segs, m.held - {b});
      ViewOfSegments(m.st, segs);
    }
  }

  lemma HeldKnown(l: Layout, m: Machine, b: nat)
    requires Inv(l, m.st, m.held) && b in m.held
    ensures b in Table(m.st.segs)
  {
  }

  /** A segment that the kernel alone holds is behind no page of a process. */
  lemma HeldIsUnseen(l: Layout, m: Machine, b: nat, k: nat, a: nat, v: nat)
    requires Inv(l, m.st, m.held) && b in m.held && Table(m.st.segs)[b].tag.refs == 1 && k < Table(m.st.segs)[b].size
    requires Alive(m.st, a) && v in m.st.spaces[a].ptes
    ensures m.st.spaces[a].ptes[v].frame != b + k
  {
    var i := EntryInSegment(l, m.st, m.held, a, v);
    var c := m.st.spaces[a].mappings[i].phy;
    MappedIsKnown(l, m.st, m.held, a, i);
    SegmentsOk(l, m.st, m.held);
    if m.st.spaces[a].ptes[v].frame == b + k {
      TableApart(l.lo, l.hi, m.st.segs, b, c, b + k);
    }
  }

  lemma FillKeepsInv(l: Layout, m: Machine, b: nat, k: nat, page: Page)
    requires Inv(l, m.st, m.held)
    ensures var r := FillFrame(m, b, k, page);
            Inv(l, r.st, r.held) && View(r.st) == View(m.st)
  {
    var st' := FillFrame(m, b, k, page).st;
    if st' != m.st {
      TableIndex(l.lo, l.hi, m.st.segs, b);
      forall a | 0 <= a < |m.st.spaces| ensures ViewOf(st'.spaces[a], st'.mem) == ViewOf(m.st.spaces[a], m.st.mem) {
        forall v | v in m.st.spaces[a].ptes ensures m.st.spaces[a].ptes[v].frame != b + k {
          HeldIsUnseen(l, m, b, k, a, v);
        }
        SamePages(m.st.spaces[a], st'.spaces[a], m.st.mem, st'.mem);
      }
    }
  }

  lemma MemoryOk(l: Layout, st: State, held: set<nat>)
    requires Inv(l, st, held)
    ensures l.hi <= |st.mem|
  {
  }

  lemma TakeOverRefs(t: map<nat, Seg.Segment>, spaces: seq<Space>, a: nat, i: nat, held: set<nat>)
    requires RefsOk(t, spaces, held) && a < |spaces| && i < |spaces[a].mappings|
    requires spaces[a].mappings[i].phy in t && spaces[a].mappings[i].phy !in held
    ensures var sp := spaces[a];
            RefsFollow(t, spaces, a, sp.(mappings := Without(sp.mappings, i)), held + {sp.mappings[i].phy})
  {
    hide CountIn, Count, Without;
    var sp := spaces[a];
    forall c | c in t
      ensures t[c].tag.refs + CountIn(sp.mappings, c)
              == Count(spaces, c) + CountIn(Without(sp.mappings, i), c)
                 + if c in held + {sp.mappings[i].phy} then 1 else 0
    {
      CountInSplit(sp.mappings, i, c);
    }
  }

  /** A reference that is not given up with its mapping is counted as one of the kernel. */
  lemma TakeOverKeepsInv(l: Layout, m: Machine, a: nat, virt: nat)
    requires Inv(l, m.st, m.held) && ToTakeOver(m, a, virt).Some?
    ensures Inv(l, Leave(m.st, a, virt), m.held + {ToTakeOver(m, a, virt).value})
  {
    var st, st', b := m.st, Leave(m.st, a, virt), ToTakeOver(m, a, virt).value;
    var sp := st.spaces[a];
    var i := MappingAt(sp.mappings, virt, 0);
    hide Inv, Seg.Inv, SpaceOk, Seg.Release, Reg.Release, WithoutEntries, Without, Stable, RefsOk, RefsFollow, Table;
    SpaceIsOk(l, st, m.held, a);
    MappedIsKnown(l, st, m.held, a, i);
    RefsCounted(l, st, m.held);
    MemoryOk(l, st, m.held);
    RemoveMappingOk(l, Table(st.segs), sp, i);
    TakeOverRefs(Table(st.segs), st.spaces, a, i, m.held);
    SameMappingsFollow(Table(st.segs), st.spaces, a, sp.(mappings := Without(sp.mappings, i)), st'.spaces[a],
      m.held + {b});
    forall c, j | 0 <= c < |st.spaces| && c != a && 0 <= j < |st.spaces[c].mappings|
      ensures Stable(Table(st.segs), Table(st'.segs), st.spaces[c].mappings[j].phy)
    {
      MappedIsKnown(l, st, m.held, c, j);
      SelfStable(l, st, m.held, c, j);
    }
    ReplaceSpaceAndHolds(l, st, m.held, a, st', m.held + {b});
  }

  lemma TakeOverRefines(l: Layout, m: Machine, a: nat, virt: nat)
    requires Inv(l, m.st, m.held) && ToTakeOver(m, a, virt).Some?
    ensures l.userBegin <= l.kernelBegin
    ensures var ev := Step(l, m.st, UnmapOp(a, virt)).1;
            Enabled(View(m.st), ev) && View(Leave(m.st, a, virt)) == Perform(View(m.st), ev)
  {
    LayoutOk(l, m.st, m.held);
    hide Inv, Seg.Release, Reg.Release, WithoutEntries, Without;
    StepRefines(l, m.st, m.held, UnmapOp(a, virt));
    assert View(Leave(m.st, a, virt)) == View(Unmap(m.st, a, virt));
  }

  lemma KernelStepRefines(l: Layout, m: Machine, op: KernelOp)
    requires Inv(l, m.st, m.held)
    ensures l.userBegin <= l.kernelBegin
    ensures var (m', ev) := KernelStep(l, m, op);
            && Inv(l, m'.st, m'.held)
            && Enabled(View(m.st), ev) && View(m'.st) == Perform(View(m.st), ev)
  {
    LayoutOk(l, m.st, m.held);
    hide Inv, View, Step, HoldFrames, FillFrame, DropFrames, Leave, ToTakeOver;
    match op
    case User(o) => StepKeepsInv(l, m.st, m.held, o); StepRefines(l, m.st, m.held, o);
    case Hold(n) => HoldKeepsInv(l, m, n);
    case TakeOver(a, virt) =>
      if ToTakeOver(m, a, virt).Some? {
        TakeOverKeepsInv(l, m, a, virt);
        TakeOverRefines(l, m, a, virt);
      }
    case Fill(b, k, page) => FillKeepsInv(l, m, b, k, page);
    case Drop(b) => DropKeepsInv(l, m, b);
  }

  /** Runs in which the kernel takes, writes and gives up frames of its own show the
      processes what the eager machine shows. */
  lemma {:induction false} KernelRunRefines(l: Layout, m: Machine, ops: seq<KernelOp>)
    requires Inv(l, m.st, m.held)
    ensures l.userBegin <= l.kernelBegin
    ensures var (m', evs) := KernelRun(l, m, ops);
            && Inv(l, m'.st, m'.held)
            && AllEnabled(View(m.st), evs)
            && View(m'.st) == PerformAll(View(m.st), evs)
    decreases |ops|
  {
    LayoutOk(l, m.st, m.held);
    hide Inv, View, KernelStep, Perform, Enabled;
    if ops != [] {
      var (m1, ev) := KernelStep(l, m, ops[0]);
      KernelStepRefines(l, m, ops[0]);
      KernelRunRefines(l, m1, ops[1..]);
      var evs := KernelRun(l, m1, ops[1..]).1;
      assert ([ev] + evs)[1..] == evs;
    }
  }

  /** After every such run that ends without mappings and without frames held, every page of
      physical memory is free again, in one segment. */
  lemma EveryPageReturns(l: Layout, m: Machine, ops: seq<KernelOp>)
    requires Inv(l, m.st, m.held) && l.lo < l.hi
    ensures l.userBegin <= l.kernelBegin
    ensures var end := KernelRun(l, m, ops).0;
            (forall a :: 0 <= a < |end.st.spaces| ==> end.st.spaces[a].mappings == []) ==>
              && Table(end.st.segs).Keys == end.held
              && (end.held == {} ==>
                    |end.st.segs| == 1 && end.st.segs[0] == Span(l.lo, l.hi - l.lo, end.st.segs[0].tag)
                    && Seg.IsFree(end.st.segs[0]))
  {
    KernelRunRefines(l, m, ops);
    hide Inv, KernelRun, Table;
    var end := KernelRun(l, m, ops).0;
    if forall a :: 0 <= a < |end.st.spaces| ==> end.st.spaces[a].mappings == [] {
      AllPagesReturn(l, end.st, end.held);
    }
  }
}
