// One pair of tables for each address space, changed by every step of the memory model: what
// the hardware finds by walking them is what the model says, and so what eager copying shows.

module TableRuns {
  import opened Common
  import opened SegmentMap
  import opened VirtualMemory
  import opened CowInvariant
  import opened CowSteps
  import opened CowRefinement
  import opened CowRuns
  import opened TableView
  import PT = PageTables
  import Seg = Segments
  import Reg = Regions

  /** The tables of all address spaces, in arrays of their own. */
  class TableSet {
    var all: seq<PT.AddressSpaceTables>
    /** The entries each one shows; nothing for a space that is gone. */
    ghost var shown: seq<Option<map<nat, Pte>>>

    ghost function Arrays(): set<object>
      reads this
    {
      (set a | 0 <= a < |all| :: all[a].dir) + (set a | 0 <= a < |all| :: all[a].tables)
    }

    ghost predicate Apart()
      reads this
    {
      && (forall a :: 0 <= a < |all| ==> all[a].Valid())
      && (forall a, b :: 0 <= a < b < |all| ==> all[a].dir != all[b].dir && all[a].tables != all[b].tables)
    }

    ghost predicate Valid()
      reads this, Arrays()
    {
      && Apart() && |shown| == |all|
      && forall a :: 0 <= a < |all| && shown[a].Some? ==> Shows(all[a], shown[a].value)
    }

    constructor ()
      ensures all == [] && shown == [] && Valid()
    {
      all, shown := [], [];
    }

    /** Tables for a new space. */
    method Add()
      requires Valid()
      modifies this
      ensures Valid() && shown == old(shown) + [Some(map[])] && fresh(Arrays() - old(Arrays()))
    {
      var t := new PT.AddressSpaceTables();
      assert Shows(t, map[]);
      all := all + [t];
      shown := shown + [Some(map[])];
    }

    method Map(a: nat, m: Mapping)
      requires Valid() && a < |all| && shown[a].Some? && m.pages > 0 && m.virt + m.pages <= USER_PAGES
      modifies this`shown, Arrays()
      ensures Valid() && all == old(all) && shown == old(shown)[a := Some(WithEntries(old(shown)[a].value, m))]
    {
      MapInto(all[a], m, shown[a].value);
      shown := shown[a := Some(WithEntries(shown[a].value, m))];
    }

    method Unmap(a: nat, m: Mapping)
      requires Valid() && a < |all| && shown[a].Some? && m.pages > 0 && m.virt + m.pages <= USER_PAGES
      requires forall v: nat :: m.Covers(v) ==> v in shown[a].value
      modifies this`shown, Arrays()
      ensures Valid() && all == old(all) && shown == old(shown)[a := Some(WithoutEntries(old(shown)[a].value, m))]
    {
      UnmapFrom(all[a], m, shown[a].value);
      shown := shown[a := Some(WithoutEntries(shown[a].value, m))];
    }

    method Duplicate(a: nat)
      requires Valid() && a < |all| && shown[a].Some?
      modifies this, Arrays()
      ensures Valid() && fresh(Arrays() - old(Arrays()))
      ensures var ptes := WriteProtected(old(shown)[a].value);
              shown == old(shown)[a := Some(ptes)] + [Some(ptes)]
    {
      var child := new PT.AddressSpaceTables();
      ghost var ptes := shown[a].value;
      DuplicateBoth(all[a], child, ptes);
      all := all + [child];
      shown := shown[a := Some(WriteProtected(ptes))] + [Some(WriteProtected(ptes))];
    }

    method Drop(a: nat)
      requires Valid() && a < |all|
      modifies this`shown
      ensures Valid() && all == old(all) && shown == old(shown)[a := None]
    {
      shown := shown[a := None];
    }
  }

  // ----- What each step shows -----

  function ShownBy(spaces: seq<Space>): (r: seq<Option<map<nat, Pte>>>)
    ensures |r| == |spaces|
    ensures forall a :: 0 <= a < |spaces| ==> r[a] == if spaces[a].alive then Some(spaces[a].ptes) else None
  {
    seq(|spaces|, a requires 0 <= a < |spaces| => if spaces[a].alive then Some(spaces[a].ptes) else None)
  }

  /** The mapping whose entries a step writes. */
  function Written(l: Layout, st: State, op: Op): Option<Mapping>
    requires l.userBegin <= l.kernelBegin
  {
    match op
    case MapOp(a, virt, n, write) =>
      var r := MapFresh(st, a, virt, n, write);
      if r.Some? && a < |r.value.spaces| && r.value.spaces[a].mappings != [] then Some(r.value.spaces[a].mappings[0])
      else None
    case FaultOp(a, v) =>
      var r := WriteFault(st, a, v);
      if r.Some? then MappingBehind(r.value, a, v) else None
    case _ => None
  }

  /** A mapping lies inside the user half and is all there. */
  lemma MappingBound(l: Layout, st: State, pinned: set<nat>, a: nat, i: nat)
    requires Inv(l, st, pinned) && Alive(st, a) && i < |st.spaces[a].mappings|
    ensures var m := st.spaces[a].mappings[i];
            && m.pages > 0 && m.virt + m.pages <= l.kernelBegin
            && forall v: nat :: m.Covers(v) ==> v in st.spaces[a].ptes
  {
    var sp, m := st.spaces[a], st.spaces[a].mappings[i];
    assert SpaceOk(l, Table(st.segs), sp);
    assert MappingOk(Table(st.segs), sp.ptes, m);
    forall v: nat | m.Covers(v) ensures v in sp.ptes {
      assert EntryOk(Table(st.segs)[m.phy], sp.ptes, m, v);
    }
    assert RangeOf(m) in Reg.Mapped(sp.regions);
    var k :| 0 <= k < |sp.regions| && sp.regions[k] == RangeOf(m);
    Tiling.TilesAt(l.userBegin, l.kernelBegin, sp.regions, k);
  }

  lemma MapShown(l: Layout, st: State, pinned: set<nat>, a: nat, virt: nat, n: nat, write: bool)
    requires Inv(l, st, pinned) && MapFresh(st, a, virt, n, write).Some?
    ensures l.userBegin <= l.kernelBegin && Alive(st, a) && Written(l, st, MapOp(a, virt, n, write)).Some?
    ensures var m := Written(l, st, MapOp(a, virt, n, write)).value;
            && m.pages > 0 && m.virt + m.pages <= l.kernelBegin
            && ShownBy(Step(l, st, MapOp(a, virt, n, write)).0.spaces)
               == ShownBy(st.spaces)[a := Some(WithEntries(st.spaces[a].ptes, m))]
  {
    hide Inv, WithEntries;
    LayoutOk(l, st, pinned);
    MapFreshKeepsInv(l, st, pinned, a, virt, n, write);
    var m := MapFreshShape(st, a, virt, n, write);
    MappingBound(l, MapFresh(st, a, virt, n, write).value, pinned, a, 0);
  }

  lemma MapFailedShown(st: State, a: nat, virt: nat, n: nat)
    ensures ShownBy(MapFailed(st, a, virt, n).spaces) == ShownBy(st.spaces)
  {
    hide Reg.Reserve, Reg.Release;
  }

  lemma FaultShown(l: Layout, st: State, pinned: set<nat>, a: nat, v: nat)
    requires Inv(l, st, pinned) && WriteFault(st, a, v).Some?
    ensures l.userBegin <= l.kernelBegin && Alive(st, a) && Written(l, st, FaultOp(a, v)).Some?
    ensures var m := Written(l, st, FaultOp(a, v)).value;
            && m.pages > 0 && m.virt + m.pages <= l.kernelBegin
            && ShownBy(Step(l, st, FaultOp(a, v)).0.spaces)
               == ShownBy(st.spaces)[a := Some(WithEntries(st.spaces[a].ptes, m))]
  {
    hide Inv, WithEntries, Seg.Alloc, Seg.Release, Retag;
    LayoutOk(l, st, pinned);
    var ms := st.spaces[a].mappings;
    var i := Locate(ms, v, 0);
    MappingBound(l, st, pinned, a, i);
    LocateRenewed(ms, i, WriteFault(st, a, v).value.spaces[a].mappings[i], v);
  }

  lemma UnmapShown(st: State, a: nat, virt: nat)
    requires Alive(st, a) && MappingAt(st.spaces[a].mappings, virt, 0) < |st.spaces[a].mappings|
    ensures var m := st.spaces[a].mappings[MappingAt(st.spaces[a].mappings, virt, 0)];
            ShownBy(Unmap(st, a, virt).spaces) == ShownBy(st.spaces)[a := Some(WithoutEntries(st.spaces[a].ptes, m))]
  {
    hide Reg.Release, Seg.Release, WithoutEntries, Without;
  }

  lemma ForkShown(l: Layout, st: State, pinned: set<nat>, a: nat)
    requires Inv(l, st, pinned) && Alive(st, a)
    ensures l.userBegin <= l.kernelBegin && Fork(l, st, a).Some?
    ensures var ptes := WriteProtected(st.spaces[a].ptes);
            ShownBy(Fork(l, st, a).value.spaces) == ShownBy(st.spaces)[a := Some(ptes)] + [Some(ptes)]
  {
    hide Inv, ReserveAll, ShareAll, WriteProtected, Reversed;
    LayoutOk(l, st, pinned);
    ForkKeepsInv(l, st, pinned, a);
  }

  // ----- The machine -----

  /** The memory of the kernel together with the tables that the hardware walks. */
  class Machine {
    var st: State
    const tables: TableSet

    ghost predicate Valid()
      reads this, tables, tables.Arrays()
    {
      tables.Valid() && tables.shown == ShownBy(st.spaces)
    }

    constructor (segs: seq<Seg.Segment>, mem: seq<Page>)
      ensures Valid() && st == State(segs, [], mem) && fresh(tables) && tables.Arrays() == {}
    {
      st := State(segs, [], mem);
      var t := new TableSet();
      tables := t;
    }

    /** A load as the hardware does it. */
    function HardwareLoad(a: nat, v: nat, off: nat): Option<int>
      requires Valid()
      reads this, tables, tables.Arrays()
    {
      if Alive(st, a) && v < USER_PAGES && off < PAGE_SIZE then
        var e := tables.all[a].Walk(v);
        if e.Page? && e.frame < |st.mem| then Some(st.mem[e.frame][off]) else None
      else None
    }

    lemma HardwareLoads(a: nat, v: nat, off: nat)
      requires Valid()
      ensures HardwareLoad(a, v, off) == Load(st, a, v, off)
    {
      if Alive(st, a) {
        assert tables.shown[a] == Some(st.spaces[a].ptes);
        assert Shows(tables.all[a], st.spaces[a].ptes);
        if v < USER_PAGES {
          assert Same(tables.all[a].Walk(v), st.spaces[a].ptes, v);
        }
      }
    }

    method TablesOnMap(l: Layout, a: nat, virt: nat, n: nat, write: bool, ghost pinned: set<nat>)
      requires Valid() && Inv(l, st, pinned) && l.userBegin <= l.kernelBegin <= USER_PAGES
      modifies tables, tables.Arrays()
      ensures tables.Valid() && tables.shown == ShownBy(Step(l, st, MapOp(a, virt, n, write)).0.spaces)
      ensures fresh(tables.Arrays() - old(tables.Arrays()))
    {
      hide Inv, WithEntries;
      if MapFresh(st, a, virt, n, write).Some? {
        MapShown(l, st, pinned, a, virt, n, write);
        tables.Map(a, Written(l, st, MapOp(a, virt, n, write)).value);
      } else {
        hide MapFresh;
        MapFailedShown(st, a, virt, n);
      }
    }

    method TablesOnUnmap(l: Layout, a: nat, virt: nat, ghost pinned: set<nat>)
      requires Valid() && Inv(l, st, pinned) && l.userBegin <= l.kernelBegin <= USER_PAGES
      modifies tables, tables.Arrays()
      ensures tables.Valid() && tables.shown == ShownBy(Step(l, st, UnmapOp(a, virt)).0.spaces)
      ensures fresh(tables.Arrays() - old(tables.Arrays()))
    {
      hide Inv, WithoutEntries, Seg.Release, Reg.Release;
      if Alive(st, a) {
        var ms := st.spaces[a].mappings;
        var i := MappingAt(ms, virt, 0);
        if i < |ms| {
          MappingBound(l, st, pinned, a, i);
          UnmapShown(st, a, virt);
          tables.Unmap(a, ms[i]);
        }
      }
    }

    method TablesOnFork(l: Layout, a: nat, ghost pinned: set<nat>)
      requires Valid() && Inv(l, st, pinned) && l.userBegin <= l.kernelBegin <= USER_PAGES
      modifies tables, tables.Arrays()
      ensures tables.Valid() && tables.shown == ShownBy(Step(l, st, ForkOp(a)).0.spaces)
      ensures fresh(tables.Arrays() - old(tables.Arrays()))
    {
      hide Inv, Fork, WriteProtected;
      if Alive(st, a) {
        ForkShown(l, st, pinned, a);
        tables.Duplicate(a);
      } else {
        ForkDead(l, st, a);
      }
    }

    method TablesOnFault(l: Layout, a: nat, v: nat, ghost pinned: set<nat>)
      requires Valid() && Inv(l, st, pinned) && l.userBegin <= l.kernelBegin <= USER_PAGES
      modifies tables, tables.Arrays()
      ensures tables.Valid() && tables.shown == ShownBy(Step(l, st, FaultOp(a, v)).0.spaces)
      ensures fresh(tables.Arrays() - old(tables.Arrays()))
    {
      hide Inv, WithEntries, WriteFault;
      if WriteFault(st, a, v).Some? {
        FaultShown(l, st, pinned, a, v);
        tables.Map(a, Written(l, st, FaultOp(a, v)).value);
      }
    }

    method TablesOnCreate(l: Layout)
      requires Valid() && l.userBegin <= l.kernelBegin
      modifies tables, tables.Arrays()
      ensures tables.Valid() && tables.shown == ShownBy(Step(l, st, CreateOp).0.spaces)
      ensures fresh(tables.Arrays() - old(tables.Arrays()))
    {
      tables.Add();
    }

    method TablesOnExit(l: Layout, a: nat)
      requires Valid() && l.userBegin <= l.kernelBegin
      modifies tables, tables.Arrays()
      ensures tables.Valid() && tables.shown == ShownBy(Step(l, st, ExitOp(a)).0.spaces)
      ensures fresh(tables.Arrays() - old(tables.Arrays()))
    {
      hide ReleaseAll;
      if Alive(st, a) {
        tables.Drop(a);
      }
    }

    lemma StoreShown(l: Layout, a: nat, v: nat, off: nat, b: int)
      requires l.userBegin <= l.kernelBegin
      ensures Step(l, st, StoreOp(a, v, off, b)).0.spaces == st.spaces
    {
    }

    /** One step, carried out on the tables too. */
    method Perform(l: Layout, op: Op, ghost pinned: set<nat>)
      requires Valid() && Inv(l, st, pinned) && l.userBegin <= l.kernelBegin <= USER_PAGES
      modifies this, tables, tables.Arrays()
      ensures Valid() && Inv(l, st, pinned) && st == Step(l, old(st), op).0
      ensures fresh(tables.Arrays() - old(tables.Arrays()))
    {
      hide Inv, Step;
      StepKeepsInv(l, st, pinned, op);
      match op {
        case CreateOp => TablesOnCreate(l);
        case MapOp(a, virt, n, write) => TablesOnMap(l, a, virt, n, write, pinned);
        case UnmapOp(a, virt) => TablesOnUnmap(l, a, virt, pinned);
        case ForkOp(a) => TablesOnFork(l, a, pinned);
        case ExitOp(a) => TablesOnExit(l, a);
        case FaultOp(a, v) => TablesOnFault(l, a, v, pinned);
        case StoreOp(a, v, off, b) => StoreShown(l, a, v, off, b);
      }
      st := Step(l, st, op).0;
    }

    /** Every run of steps leaves tables whose walk reads what eager copying shows. */
    method PerformAllSteps(l: Layout, ops: seq<Op>, ghost pinned: set<nat>)
      requires Valid() && Inv(l, st, pinned) && l.userBegin <= l.kernelBegin <= USER_PAGES
      modifies this, tables, tables.Arrays()
      ensures Valid() && Inv(l, st, pinned) && st == Run(l, old(st), ops).0
      ensures AllEnabled(View(old(st)), Run(l, old(st), ops).1)
      ensures forall a: nat, v: nat, off: nat ::
        HardwareLoad(a, v, off) == EagerLoad(PerformAll(View(old(st)), Run(l, old(st), ops).1), a, v, off)
    {
      hide Inv, Step, View, HardwareLoad, EagerLoad, PerformAll, AllEnabled;
      ghost var began := st;
      RunRefines(l, st, pinned, ops);
      var i := 0;
      while i < |ops|
        invariant 0 <= i <= |ops| && Valid() && Inv(l, st, pinned)
        invariant fresh(tables.Arrays() - old(tables.Arrays()))
        invariant Run(l, began, ops).0 == Run(l, st, ops[i..]).0
      {
        assert ops[i..][0] == ops[i] && ops[i..][1..] == ops[i + 1..];
        Perform(l, ops[i], pinned);
        i := i + 1;
      }
      forall a: nat, v: nat, off: nat
        ensures HardwareLoad(a, v, off) == EagerLoad(PerformAll(View(began), Run(l, began, ops).1), a, v, off)
      {
        HardwareLoads(a, v, off);
        CopyOnWriteIsInvisible(l, began, pinned, ops, a, v, off);
      }
    }
  }

  lemma ForkDead(l: Layout, st: State, a: nat)
    requires l.userBegin <= l.kernelBegin && !Alive(st, a)
    ensures Fork(l, st, a).None?
  {
  }
}
