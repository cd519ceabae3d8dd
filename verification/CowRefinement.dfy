// Copy-on-write is invisible: every run shows each address space exactly what it would see if
// forking copied all pages at once.

module CowRefinement {
  import opened Common
  import opened Tiling
  import opened SegmentMap
  import opened VirtualMemory
  import opened CowInvariant
  import opened CowSteps
  import Seg = Segments
  import Reg = Regions

  // ----- The eager machine: an address space is the pages it holds -----

  datatype Eager = Eager(alive: bool, pages: map<nat, Page>, writable: set<nat>)

  function Range(virt: nat, n: nat): set<nat> {
    set v: nat | virt <= v < virt + n && Within(virt, n, v)
  }

  predicate Within(virt: nat, n: nat, v: nat) {
    virt <= v < virt + n
  }

  /** What a step does to the eager machine. */
  datatype Event =
    | Created
    | MappedAt(space: nat, virt: nat, contents: seq<Page>, write: bool)
    | UnmappedAt(space: nat, virt: nat, pages: nat)
    | Forked(space: nat)
    | Exited(space: nat)
    | Stored(space: nat, page: nat, off: nat, byte: int)
    | Nothing

  function Placed(virt: nat, contents: seq<Page>): map<nat, Page> {
    map v: nat | v in Range(virt, |contents|) :: contents[v - virt]
  }

  predicate Enabled(es: seq<Eager>, ev: Event) {
    match ev
    case Created => true
    case Nothing => true
    case Stored(a, v, off, _) => a < |es| && v in es[a].pages && v in es[a].writable && off < PAGE_SIZE
    case MappedAt(a, virt, contents, _) => a < |es| && es[a].pages.Keys !! Range(virt, |contents|)
    case _ => ev.space < |es|
  }

  function Perform(es: seq<Eager>, ev: Event): seq<Eager>
    requires Enabled(es, ev)
  {
    match ev
    case Created => es + [Eager(true, map[], {})]
    case MappedAt(a, virt, contents, write) =>
      es[a := Eager(true, es[a].pages + Placed(virt, contents),
                    es[a].writable + if write then Range(virt, |contents|) else {})]
    case UnmappedAt(a, virt, n) =>
      es[a := Eager(true, es[a].pages - Range(virt, n), es[a].writable - Range(virt, n))]
    case Forked(a) => es + [es[a]]
    case Exited(a) => es[a := Eager(false, map[], {})]
    case Stored(a, v, off, b) => es[a := es[a].(pages := es[a].pages[v := es[a].pages[v][off := b]])]
    case Nothing => es
  }

  // ----- What the copy-on-write machine shows -----

  function PagesOf(sp: Space, mem: seq<Page>): map<nat, Page> {
    map v | v in sp.ptes && sp.ptes[v].frame < |mem| :: mem[sp.ptes[v].frame]
  }

  /** The pages of the mappings that allow writing, shared or not. */
  function WritableOf(ms: seq<Mapping>): set<nat> {
    set m, v | m in ms && v in Range(m.virt, m.pages) && m.write :: v
  }

  function ViewOf(sp: Space, mem: seq<Page>): Eager {
    Eager(sp.alive, PagesOf(sp, mem), WritableOf(sp.mappings))
  }

  function View(st: State): (es: seq<Eager>)
    ensures |es| == |st.spaces|
    ensures forall a :: 0 <= a < |es| ==> es[a] == ViewOf(st.spaces[a], st.mem)
  {
    seq(|st.spaces|, a requires 0 <= a < |st.spaces| => ViewOf(st.spaces[a], st.mem))
  }

  /** The frame of an entry lies in the segment of the mapping that covers its page. */
  lemma EntryInSegment(l: Layout, st: State, pinned: set<nat>, a: nat, v: nat) returns (i: nat)
    requires Inv(l, st, pinned) && Alive(st, a) && v in st.spaces[a].ptes
    ensures i < |st.spaces[a].mappings| && st.spaces[a].mappings[i].Covers(v)
    ensures var m := st.spaces[a].mappings[i];
            && m.phy in Table(st.segs) && MappingOk(Table(st.segs), st.spaces[a].ptes, m)
            && st.spaces[a].ptes[v].frame == m.phy + (v - m.virt)
            && Table(st.segs)[m.phy].Covers(st.spaces[a].ptes[v].frame)
            && st.spaces[a].ptes[v].frame < |st.mem|
  {
    var sp := st.spaces[a];
    assert SpaceOk(l, Table(st.segs), sp);
    i := Locate(sp.mappings, v, 0);
    var m := sp.mappings[i];
    assert MappingOk(Table(st.segs), sp.ptes, m);
    assert EntryOk(Table(st.segs)[m.phy], sp.ptes, m, v);
    TableBounds(l.lo, l.hi, st.segs, m.phy);
  }

  lemma SpaceIsOk(l: Layout, st: State, pinned: set<nat>, a: nat)
    requires Inv(l, st, pinned) && Alive(st, a)
    ensures SpaceOk(l, Table(st.segs), st.spaces[a])
  {
  }

  /** A mapping of a space in order: its pages are apart from those of the others, and its
      frames are there. */
  lemma MappingIsOk(l: Layout, st: State, pinned: set<nat>, a: nat, i: nat)
    requires Inv(l, st, pinned) && Alive(st, a) && i < |st.spaces[a].mappings|
    ensures MappingOk(Table(st.segs), st.spaces[a].ptes, st.spaces[a].mappings[i])
    ensures st.spaces[a].mappings[i].phy + st.spaces[a].mappings[i].pages <= |st.mem|
    ensures forall j :: 0 <= j < |st.spaces[a].mappings| && j != i ==>
              Apart(st.spaces[a].mappings[i], st.spaces[a].mappings[j])
  {
    SpaceIsOk(l, st, pinned, a);
    var ms := st.spaces[a].mappings;
    assert MappingOk(Table(st.segs), st.spaces[a].ptes, ms[i]);
    TableBounds(l.lo, l.hi, st.segs, ms[i].phy);
    forall j | 0 <= j < |ms| && j != i ensures Apart(ms[i], ms[j]) {
      assert Apart(ms[if j < i then j else i], ms[if j < i then i else j]);
    }
  }

  lemma ViewUpdate(st: State, st': State, a: nat)
    requires a < |st.spaces| && st'.mem == st.mem && |st'.spaces| == |st.spaces|
    requires st'.spaces == st.spaces[a := st'.spaces[a]]
    ensures View(st') == View(st)[a := ViewOf(st'.spaces[a], st.mem)]
  {
  }

  // ----- Mapping -----

  lemma MapFreshShape(st: State, a: nat, virt: nat, n: nat, write: bool) returns (m: Mapping)
    requires MapFresh(st, a, virt, n, write).Some?
    ensures var st' := MapFresh(st, a, virt, n, write).value;
            var sp := st.spaces[a];
            && a < |st'.spaces| == |st.spaces| && st'.mem == st.mem && st'.spaces == st.spaces[a := st'.spaces[a]]
            && st'.spaces[a].alive && st'.spaces[a].mappings == [m] + sp.mappings
            && st'.spaces[a].ptes == WithEntries(sp.ptes, m)
            && m.pages == n && m.write == write
  {
    m := MapFresh(st, a, virt, n, write).value.spaces[a].mappings[0];
  }

  /** A mapping begins at the address asked for. */
  lemma MapFreshPlace(l: Layout, t: map<nat, Seg.Segment>, st: State, a: nat, virt: nat, n: nat, write: bool)
    requires MapFresh(st, a, virt, n, write).Some? && SpaceOk(l, t, st.spaces[a])
    ensures var m := MapFresh(st, a, virt, n, write).value.spaces[a].mappings[0];
            virt != 0 ==> m.virt == virt
  {
    hide Reg.Reserve, Seg.Alloc, WithEntries, Tiles, AllOk, AllCovered, AllApart;
    var (regions, at) := Reg.Reserve(st.spaces[a].regions, virt, n);
    Reg.ReserveCorrect(l.userBegin, l.kernelBegin, st.spaces[a].regions, virt, n);
  }

  lemma AddWritable(ms: seq<Mapping>, m: Mapping)
    ensures WritableOf([m] + ms) == WritableOf(ms) + if m.write then Range(m.virt, m.pages) else {}
  {
    assert forall n :: n in [m] + ms <==> n == m || n in ms;
  }

  lemma EntryAt(ptes: map<nat, Pte>, m: Mapping, v: nat)
    ensures v in WithEntries(ptes, m) <==> v in ptes || m.Covers(v)
    ensures v in WithEntries(ptes, m) ==>
              WithEntries(ptes, m)[v] == if m.Covers(v) then EntryOf(m, v) else ptes[v]
  {
  }

  lemma AddPageAt(sp: Space, sp': Space, m: Mapping, mem: seq<Page>, v: nat)
    requires sp'.ptes == WithEntries(sp.ptes, m) && m.phy + m.pages <= |mem|
    ensures v in PagesOf(sp', mem) <==> v in PagesOf(sp, mem) || m.Covers(v)
    ensures v in PagesOf(sp', mem) ==>
              PagesOf(sp', mem)[v] == if m.Covers(v) then mem[m.phy + (v - m.virt)] else PagesOf(sp, mem)[v]
  {
    hide WithEntries;
    EntryAt(sp.ptes, m, v);
  }

  lemma PlacedAt(virt: nat, contents: seq<Page>, v: nat)
    ensures v in Placed(virt, contents) <==> virt <= v < virt + |contents|
    ensures v in Placed(virt, contents) ==> Placed(virt, contents)[v] == contents[v - virt]
  {
    assert Within(virt, |contents|, v) <==> v in Range(virt, |contents|);
  }

  lemma AddPages(sp: Space, sp': Space, m: Mapping, mem: seq<Page>)
    requires sp'.ptes == WithEntries(sp.ptes, m) && m.phy + m.pages <= |mem|
    ensures PagesOf(sp', mem) == PagesOf(sp, mem) + Placed(m.virt, mem[m.phy..m.phy + m.pages])
  {
    hide PagesOf, Placed, WithEntries;
    var contents := mem[m.phy..m.phy + m.pages];
    forall v: nat
      ensures v in PagesOf(sp', mem) <==> v in PagesOf(sp, mem) + Placed(m.virt, contents)
      ensures v in PagesOf(sp', mem) ==> PagesOf(sp', mem)[v] == (PagesOf(sp, mem) + Placed(m.virt, contents))[v]
    {
      AddPageAt(sp, sp', m, mem, v);
      PlacedAt(m.virt, contents, v);
    }
  }

  /** The event of a mapping step: the address asked for, or where it was placed if none was,
      and what its pages held. */
  function MapEvent(st: State, a: nat, virt: nat, n: nat, write: bool): Event {
    if a < |st.spaces| && st.spaces[a].mappings != [] && st.spaces[a].mappings[0].phy + n <= |st.mem| then
      var m := st.spaces[a].mappings[0];
      MappedAt(a, if virt != 0 then virt else m.virt, st.mem[m.phy..m.phy + n], write)
    else Nothing
  }

  lemma AddMappingRefines(l: Layout, st: State, pinned: set<nat>, a: nat, virt: nat, st': State, m: Mapping)
    requires Inv(l, st, pinned) && Inv(l, st', pinned) && Alive(st, a) && Alive(st', a)
    requires |st'.spaces| == |st.spaces| && st'.mem == st.mem && st'.spaces == st.spaces[a := st'.spaces[a]]
    requires st'.spaces[a].mappings == [m] + st.spaces[a].mappings
    requires st'.spaces[a].ptes == WithEntries(st.spaces[a].ptes, m)
    requires virt != 0 ==> m.virt == virt
    ensures var ev := MapEvent(st', a, virt, m.pages, m.write);
            ev.MappedAt? && Enabled(View(st), ev) && View(st') == Perform(View(st), ev)
  {
    hide Inv, WithEntries, PagesOf, WritableOf, Placed, Range;
    var sp, sp' := st.spaces[a], st'.spaces[a];
    NewMappingFresh(l, st, pinned, a, st', m);
    AddPages(sp, sp', m, st.mem);
    AddWritable(sp.mappings, m);
    ViewUpdate(st, st', a);
  }

  /** A mapping step shows fresh pages holding whatever the frames held. */
  lemma MapFreshRefines(l: Layout, st: State, pinned: set<nat>, a: nat, virt: nat, n: nat, write: bool)
    requires Inv(l, st, pinned) && MapFresh(st, a, virt, n, write).Some?
    ensures var st' := MapFresh(st, a, virt, n, write).value;
            var ev := MapEvent(st', a, virt, n, write);
            ev.MappedAt? && Enabled(View(st), ev) && View(st') == Perform(View(st), ev)
  {
    hide Inv, WithEntries, Perform, View, Enabled, MapEvent;
    MapFreshKeepsInv(l, st, pinned, a, virt, n, write);
    var m := MapFreshShape(st, a, virt, n, write);
    SpaceIsOk(l, st, pinned, a);
    MapFreshPlace(l, Table(st.segs), st, a, virt, n, write);
    AddMappingRefines(l, st, pinned, a, virt, MapFresh(st, a, virt, n, write).value, m);
  }

  lemma NewMappingFresh(l: Layout, st: State, pinned: set<nat>, a: nat, st': State, m: Mapping)
    requires Inv(l, st, pinned) && Inv(l, st', pinned) && Alive(st, a) && Alive(st', a)
    requires st'.spaces[a].mappings == [m] + st.spaces[a].mappings && st'.mem == st.mem
    ensures m.phy + m.pages <= |st.mem|
    ensures PagesOf(st.spaces[a], st.mem).Keys !! Range(m.virt, m.pages)
  {
    hide Inv;
    var sp, sp' := st.spaces[a], st'.spaces[a];
    MappingIsOk(l, st', pinned, a, 0);
    forall v | v in PagesOf(sp, st.mem) ensures v !in Range(m.virt, m.pages) {
      var i := EntryInSegment(l, st, pinned, a, v);
      assert Apart(sp'.mappings[0], sp'.mappings[i + 1]);
    }
  }

  // ----- Unmapping -----

  lemma RemoveWritable(l: Layout, t: map<nat, Seg.Segment>, sp: Space, i: nat)
    requires SpaceOk(l, t, sp) && i < |sp.mappings|
    ensures var m := sp.mappings[i];
            WritableOf(Without(sp.mappings, i)) == WritableOf(sp.mappings) - Range(m.virt, m.pages)
  {
    hide Apart, Tiles, AllOk, AllCovered;
    var ms, m, ns := sp.mappings, sp.mappings[i], Without(sp.mappings, i);
    RemoveMembers(ms, i);
    forall v | v in WritableOf(ns) ensures v in WritableOf(ms) - Range(m.virt, m.pages) {
      var n :| n in ns && v in Range(n.virt, n.pages) && n.write;
      ApartRanges(m, n, v);
    }
    forall v | v in WritableOf(ms) && v !in Range(m.virt, m.pages) ensures v in WritableOf(ns) {
      var n :| n in ms && v in Range(n.virt, n.pages) && n.write;
      assert n in ns;
    }
  }

  lemma ApartRanges(m: Mapping, n: Mapping, v: nat)
    requires Apart(m, n) && v in Range(n.virt, n.pages)
    ensures v !in Range(m.virt, m.pages)
  {
    assert n.Covers(v);
  }

  lemma RemoveMembers(ms: seq<Mapping>, i: nat)
    requires AllApart(ms) && i < |ms|
    ensures forall n :: n in Without(ms, i) ==> n in ms && Apart(ms[i], n)
    ensures forall n :: n in ms && n != ms[i] ==> n in Without(ms, i)
  {
    var m, ns := ms[i], Without(ms, i);
    forall k | 0 <= k < |ns| ensures ns[k] in ms && Apart(m, ns[k]) {
      var j := if k < i then k else k + 1;
      assert ns[k] == ms[j];
      if j < i {
        ApartSymmetric(ms[j], m);
      }
    }
    forall n | n in ms && n != m ensures n in ns {
      var k :| 0 <= k < |ms| && ms[k] == n;
      assert ns[if k < i then k else k - 1] == n;
    }
  }

  lemma RemovePages(sp: Space, mem: seq<Page>, m: Mapping)
    ensures PagesOf(sp.(ptes := WithoutEntries(sp.ptes, m)), mem) == PagesOf(sp, mem) - Range(m.virt, m.pages)
  {
    assert forall v: nat :: m.Covers(v) <==> v in Range(m.virt, m.pages);
  }

  lemma UnmapRefines(l: Layout, st: State, pinned: set<nat>, a: nat, virt: nat)
    requires Inv(l, st, pinned) && Alive(st, a)
    ensures var i := MappingAt(st.spaces[a].mappings, virt, 0);
            View(Unmap(st, a, virt))
            == Perform(View(st), if i < |st.spaces[a].mappings| then UnmappedAt(a, virt, st.spaces[a].mappings[i].pages)
                                 else Nothing)
  {
    hide Reg.Release, Seg.Release, Seg.Inv, SpaceOk, WithoutEntries, Without, WritableOf, PagesOf;
    var sp := st.spaces[a];
    var i := MappingAt(sp.mappings, virt, 0);
    if i < |sp.mappings| {
      var m, st' := sp.mappings[i], Unmap(st, a, virt);
      RemoveWritable(l, Table(st.segs), sp, i);
      RemovePages(sp, st.mem, m);
      SamePages(st'.spaces[a], sp.(ptes := WithoutEntries(sp.ptes, m)), st.mem, st.mem);
      ViewUpdate(st, st', a);
    }
  }

  /** What a space shows depends on its entries and the frames they name. */
  lemma SamePages(sp: Space, sp': Space, mem: seq<Page>, mem': seq<Page>)
    requires sp.ptes == sp'.ptes && |mem'| == |mem|
    requires forall v :: v in sp.ptes && sp.ptes[v].frame < |mem| ==> mem'[sp.ptes[v].frame] == mem[sp.ptes[v].frame]
    ensures PagesOf(sp, mem) == PagesOf(sp', mem')
  {
  }

  // ----- Forking and exiting -----

  lemma ReversedWritable(ms: seq<Mapping>)
    ensures WritableOf(Reversed(ms)) == WritableOf(ms)
  {
    ReversedIndex(ms);
    forall m | m in ms ensures m in Reversed(ms) {
      var i :| 0 <= i < |ms| && ms[i] == m;
      assert Reversed(ms)[|ms| - 1 - i] == m;
    }
    forall m | m in Reversed(ms) ensures m in ms {
      var i :| 0 <= i < |ms| && Reversed(ms)[i] == m;
    }
  }

  /** Sharing the pages shows the child what copying them would have. */
  lemma ForkRefines(l: Layout, st: State, pinned: set<nat>, a: nat)
    requires Inv(l, st, pinned) && Alive(st, a)
    ensures Fork(l, st, a).Some? && View(Fork(l, st, a).value) == Perform(View(st), Forked(a))
  {
    hide ReserveAll, ShareAll, Seg.Inv, SpaceOk;
    ForkKeepsInv(l, st, pinned, a);
    var sp := st.spaces[a];
    var st' := Fork(l, st, a).value;
    assert PagesOf(st'.spaces[a], st.mem) == PagesOf(sp, st.mem);
    assert PagesOf(st'.spaces[|st.spaces|], st.mem) == PagesOf(sp, st.mem);
    ReversedWritable(sp.mappings);
  }

  lemma ExitRefines(st: State, a: nat)
    requires Alive(st, a)
    ensures View(Exit(st, a)) == Perform(View(st), Exited(a))
  {
    hide ReleaseAll;
    assert PagesOf(DEAD, st.mem) == map[];
    assert WritableOf([]) == {};
    ViewUpdate(st, Exit(st, a), a);
  }

  // ----- The write fault -----

  lemma CowAloneRefines(l: Layout, st: State, pinned: set<nat>, a: nat, i: nat)
    requires Inv(l, st, pinned) && Alive(st, a) && i < |st.spaces[a].mappings|
    requires Cow(st, a, i).Some? && Cow(st, a, i).value.mem == st.mem
    requires Cow(st, a, i).value.spaces
             == st.spaces[a := st.spaces[a].(ptes := WithEntries(st.spaces[a].ptes, st.spaces[a].mappings[i]))]
    ensures View(Cow(st, a, i).value) == View(st)
  {
    hide Inv, Cow;
    var sp, m := st.spaces[a], st.spaces[a].mappings[i];
    var st' := Cow(st, a, i).value;
    var sp' := st'.spaces[a];
    MappingIsOk(l, st, pinned, a, i);
    assert PagesOf(sp', st.mem) == PagesOf(sp, st.mem) by {
      hide PagesOf, WithEntries;
      forall v: nat
        ensures v in PagesOf(sp', st.mem) <==> v in PagesOf(sp, st.mem)
        ensures v in PagesOf(sp', st.mem) ==> PagesOf(sp', st.mem)[v] == PagesOf(sp, st.mem)[v]
      {
        AddPageAt(sp, sp', m, st.mem, v);
        MappedPageAt(l, st, pinned, a, i, v);
      }
    }
    ViewUpdate(st, st', a);
  }

  /** A page of a mapping shows the frame of its segment. */
  lemma MappedPageAt(l: Layout, st: State, pinned: set<nat>, a: nat, i: nat, v: nat)
    requires Inv(l, st, pinned) && Alive(st, a) && i < |st.spaces[a].mappings|
    ensures var m := st.spaces[a].mappings[i];
            m.Covers(v) ==>
              && v in PagesOf(st.spaces[a], st.mem)
              && m.phy + (v - m.virt) < |st.mem|
              && PagesOf(st.spaces[a], st.mem)[v] == st.mem[m.phy + (v - m.virt)]
  {
    hide Inv;
    var m := st.spaces[a].mappings[i];
    MappingIsOk(l, st, pinned, a, i);
    if m.Covers(v) { assert EntryOk(Table(st.segs)[m.phy], st.spaces[a].ptes, m, v); }
  }

  lemma AllocBounds(l: Layout, segs: seq<Seg.Segment>, n: nat)
    requires Seg.Inv(l.lo, l.hi, segs) && n > 0 && Seg.Alloc(segs, n).1.Some?
    ensures Seg.Alloc(segs, n).1.value.base + n <= l.hi
  {
    hide Seg.Alloc;
    AllocTable(l.lo, l.hi, segs, n);
    TableBounds(l.lo, l.hi, Seg.Alloc(segs, n).0, Seg.Alloc(segs, n).1.value.base);
  }

  /** A fresh segment shares no frame with one in use. */
  lemma FreshFrames(l: Layout, segs: seq<Seg.Segment>, n: nat, b: nat, f: nat)
    requires Seg.Inv(l.lo, l.hi, segs) && n > 0 && Seg.Alloc(segs, n).1.Some?
    requires b in Table(segs) && Table(segs)[b].Covers(f)
    ensures !Seg.Alloc(segs, n).1.value.Covers(f)
  {
    hide Seg.Alloc;
    var x := Seg.Alloc(segs, n).1.value;
    AllocTable(l.lo, l.hi, segs, n);
    var segs' := Seg.Alloc(segs, n).0;
    if x.Covers(f) { TableApart(l.lo, l.hi, segs', b, x.base, f); }
  }

  /** Filling fresh frames changes no page that any space shows. */
  lemma CopyUnseen(l: Layout, st: State, pinned: set<nat>, c: nat, n: nat, src: nat)
    requires Inv(l, st, pinned) && Alive(st, c) && n > 0 && Seg.Alloc(st.segs, n).1.Some? && src + n <= |st.mem|
    ensures PagesOf(st.spaces[c], CopyPages(st.mem, Seg.Alloc(st.segs, n).1.value.base, src, n))
            == PagesOf(st.spaces[c], st.mem)
  {
    hide Seg.Alloc;
    var x := Seg.Alloc(st.segs, n).1.value;
    assert x.size == n by { AllocTable(l.lo, l.hi, st.segs, n); }
    hide Inv;
    var sp := st.spaces[c];
    forall v | v in sp.ptes ensures !x.Covers(sp.ptes[v].frame) {
      var i := EntryInSegment(l, st, pinned, c, v);
      assert Seg.Inv(l.lo, l.hi, st.segs) by { SegmentsOk(l, st, pinned); }
      FreshFrames(l, st.segs, n, sp.mappings[i].phy, sp.ptes[v].frame);
    }
    hide PagesOf;
    SamePages(sp, sp, st.mem, CopyPages(st.mem, x.base, src, n));
  }

  lemma SegmentsOk(l: Layout, st: State, pinned: set<nat>)
    requires Inv(l, st, pinned)
    ensures Seg.Inv(l.lo, l.hi, st.segs) && l.hi <= |st.mem|
    ensures forall a :: 0 <= a < |st.spaces| && !st.spaces[a].alive ==> st.spaces[a] == DEAD
  {
  }

  lemma CowCopyRefines(l: Layout, st: State, pinned: set<nat>, a: nat, i: nat)
    requires Inv(l, st, pinned) && Alive(st, a) && i < |st.spaces[a].mappings|
    requires Seg.Alloc(st.segs, st.spaces[a].mappings[i].pages).1.Some?
    requires Cow(st, a, i).Some?
    requires var m := st.spaces[a].mappings[i];
             var m' := m.(phy := Seg.Alloc(st.segs, m.pages).1.value.base);
             && m.phy + m.pages <= |st.mem|
             && Cow(st, a, i).value.mem == CopyPages(st.mem, m'.phy, m.phy, m.pages)
             && Cow(st, a, i).value.spaces == st.spaces[a := st.spaces[a].(
                  mappings := st.spaces[a].mappings[i := m'], ptes := WithEntries(st.spaces[a].ptes, m'))]
    ensures View(Cow(st, a, i).value) == View(st)
  {
    hide Inv, Cow, Seg.Alloc;
    var sp, m := st.spaces[a], st.spaces[a].mappings[i];
    var st' := Cow(st, a, i).value;
    var m' := m.(phy := Seg.Alloc(st.segs, m.pages).1.value.base);
    MappingIsOk(l, st, pinned, a, i);
    SegmentsOk(l, st, pinned);
    AllocBounds(l, st.segs, m.pages);
    forall c | 0 <= c < |st.spaces| ensures ViewOf(st'.spaces[c], st'.mem) == ViewOf(st.spaces[c], st.mem) {
      if !st.spaces[c].alive {
        assert PagesOf(DEAD, st.mem) == PagesOf(DEAD, st'.mem);
      } else {
        CopyUnseen(l, st, pinned, c, m.pages, m.phy);
        if c == a {
          RenewedPages(l, st, pinned, a, i, st', m');
          RenewedWritable(sp.mappings, i, m');
        }
      }
    }
  }

  lemma RenewedWritable(ms: seq<Mapping>, i: nat, m: Mapping)
    requires i < |ms| && m == ms[i].(phy := m.phy)
    ensures WritableOf(ms[i := m]) == WritableOf(ms)
  {
    var ns := ms[i := m];
    forall v | v in WritableOf(ms) ensures v in WritableOf(ns) {
      var n :| n in ms && v in Range(n.virt, n.pages) && n.write;
      var k :| 0 <= k < |ms| && ms[k] == n;
      assert ns[k] in ns && v in Range(ns[k].virt, ns[k].pages) && ns[k].write;
    }
    forall v | v in WritableOf(ns) ensures v in WritableOf(ms) {
      var n :| n in ns && v in Range(n.virt, n.pages) && n.write;
      var k :| 0 <= k < |ns| && ns[k] == n;
      assert ms[k] in ms && v in Range(ms[k].virt, ms[k].pages) && ms[k].write;
    }
  }

  lemma RenewedPages(l: Layout, st: State, pinned: set<nat>, a: nat, i: nat, st': State, m': Mapping)
    requires Inv(l, st, pinned) && Alive(st, a) && i < |st.spaces[a].mappings| && a < |st'.spaces|
    requires var m := st.spaces[a].mappings[i];
             && m' == m.(phy := m'.phy) && m.phy + m.pages <= |st.mem| && m'.phy + m.pages <= |st.mem|
             && st'.mem == CopyPages(st.mem, m'.phy, m.phy, m.pages)
    requires st'.spaces[a].ptes == WithEntries(st.spaces[a].ptes, m')
    requires PagesOf(st.spaces[a], st'.mem) == PagesOf(st.spaces[a], st.mem)
    ensures PagesOf(st'.spaces[a], st'.mem) == PagesOf(st.spaces[a], st.mem)
  {
    hide Inv, PagesOf, WithEntries;
    var sp, sp' := st.spaces[a], st'.spaces[a];
    forall v: nat
      ensures v in PagesOf(sp', st'.mem) <==> v in PagesOf(sp, st.mem)
      ensures v in PagesOf(sp', st'.mem) ==> PagesOf(sp', st'.mem)[v] == PagesOf(sp, st.mem)[v]
    {
      AddPageAt(sp, sp', m', st'.mem, v);
      MappedPageAt(l, st, pinned, a, i, v);
    }
  }

  /** Handling a write fault changes nothing that any space sees. */
  lemma WriteFaultRefines(l: Layout, st: State, pinned: set<nat>, a: nat, v: nat)
    requires Inv(l, st, pinned) && WriteFault(st, a, v).Some?
    ensures View(WriteFault(st, a, v).value) == View(st)
  {
    hide Inv, WithEntries, Seg.Alloc, Seg.Release;
    var i := Locate(st.spaces[a].mappings, v, 0);
    MappingIsOk(l, st, pinned, a, i);
    SegmentsOk(l, st, pinned);
    var m := st.spaces[a].mappings[i];
    TableIndex(l.lo, l.hi, st.segs, m.phy);
    if Table(st.segs)[m.phy].tag.refs == 1 {
      CowAloneRefines(l, st, pinned, a, i);
    } else {
      TableBounds(l.lo, l.hi, st.segs, m.phy);
      CowCopyRefines(l, st, pinned, a, i);
    }
  }

  // ----- Loads and stores -----

  /** A writable entry is the only one with its frame, in all spaces. */
  lemma WritableFrameUnique(l: Layout, st: State, pinned: set<nat>, a: nat, v: nat, c: nat, u: nat)
    requires Inv(l, st, pinned) && Writable(st, a, v) && Alive(st, c) && u in st.spaces[c].ptes
    requires st.spaces[c].ptes[u].frame == st.spaces[a].ptes[v].frame
    ensures c == a && u == v
  {
    var i := EntryInSegment(l, st, pinned, a, v);
    var j := EntryInSegment(l, st, pinned, c, u);
    var m, n := st.spaces[a].mappings[i], st.spaces[c].mappings[j];
    assert EntryOk(Table(st.segs)[m.phy], st.spaces[a].ptes, m, v);
    TableApart(l.lo, l.hi, st.segs, m.phy, n.phy, st.spaces[a].ptes[v].frame);
    MappingCounted(l, st, pinned, a, i);
    OnlyOneMapping(st.spaces, a, i, c, j, m.phy);
  }

  /** A store that the tables let through is seen at its own page of its own space, and
      nowhere else. */
  lemma StoreRefines(l: Layout, st: State, pinned: set<nat>, a: nat, v: nat, off: nat, b: int)
    requires Inv(l, st, pinned) && Store(st, a, v, off, b).Some?
    ensures Enabled(View(st), Stored(a, v, off, b))
    ensures View(Store(st, a, v, off, b).value) == Perform(View(st), Stored(a, v, off, b))
  {
    hide Inv, PagesOf, WritableOf, ViewOf;
    var st' := Store(st, a, v, off, b).value;
    StoreAllowed(l, st, pinned, a, v);
    SegmentsOk(l, st, pinned);
    forall c | 0 <= c < |st.spaces|
      ensures ViewOf(st'.spaces[c], st'.mem) == Perform(View(st), Stored(a, v, off, b))[c]
    {
      StoreView(l, st, pinned, a, v, off, b, c);
    }
  }

  /** A writable entry shows a page of a mapping that allows writing. */
  lemma StoreAllowed(l: Layout, st: State, pinned: set<nat>, a: nat, v: nat)
    requires Inv(l, st, pinned) && Writable(st, a, v)
    ensures v in ViewOf(st.spaces[a], st.mem).pages && v in ViewOf(st.spaces[a], st.mem).writable
    ensures ViewOf(st.spaces[a], st.mem).pages[v] == st.mem[st.spaces[a].ptes[v].frame]
  {
    hide Inv;
    var i := EntryInSegment(l, st, pinned, a, v);
    var m := st.spaces[a].mappings[i];
    assert EntryOk(Table(st.segs)[m.phy], st.spaces[a].ptes, m, v);
    assert m in st.spaces[a].mappings && v in Range(m.virt, m.pages);
  }

  lemma StoreView(l: Layout, st: State, pinned: set<nat>, a: nat, v: nat, off: nat, b: int, c: nat)
    requires Inv(l, st, pinned) && Writable(st, a, v) && off < PAGE_SIZE && c < |st.spaces|
    ensures var f := st.spaces[a].ptes[v].frame;
            var before, page := ViewOf(st.spaces[c], st.mem), st.mem[f][off := b];
            ViewOf(st.spaces[c], st.mem[f := page])
            == if c == a then before.(pages := before.pages[v := page]) else before
  {
    hide Inv;
    var sp, f := st.spaces[c], st.spaces[a].ptes[v].frame;
    if sp.alive {
      forall u | u in sp.ptes && sp.ptes[u].frame == f ensures c == a && u == v {
        WritableFrameUnique(l, st, pinned, a, v, c, u);
      }
    } else {
      SegmentsOk(l, st, pinned);
    }
    hide PagesOf;
    if c == a {
      StorePage(sp, st.mem, v, st.mem[f][off := b]);
    } else {
      SamePages(sp, sp, st.mem, st.mem[f := st.mem[f][off := b]]);
    }
  }

  lemma StorePage(sp: Space, mem: seq<Page>, v: nat, page: Page)
    requires v in sp.ptes && sp.ptes[v].frame < |mem|
    requires forall u :: u in sp.ptes && sp.ptes[u].frame == sp.ptes[v].frame ==> u == v
    ensures PagesOf(sp, mem[sp.ptes[v].frame := page]) == PagesOf(sp, mem)[v := page]
  {
  }
}
