// Address spaces over reference-counted physical segments: mapping, unmapping, forking with
// copy-on-write, the write fault that copies, and the loads and stores of user programs.
// Each operation is one step from state to state.

module VirtualMemory {
  import opened Common
  import opened Tiling
  import opened SegmentMap
  import Seg = Segments
  import Reg = Regions

  const PAGE_SIZE: nat := 4096

  type Page = p: seq<int> | |p| == PAGE_SIZE witness seq(PAGE_SIZE, i => 0)

  /** Physical pages lo..hi and user virtual pages userBegin..kernelBegin. */
  datatype Layout = Layout(lo: nat, hi: nat, userBegin: nat, kernelBegin: nat)

  /** A page table entry; absence from the map is absence from the tables. */
  datatype Pte = Pte(frame: nat, write: bool)

  /** `phy` is the segment mapped, named by its base. */
  datatype Mapping = Mapping(virt: nat, pages: nat, phy: nat, write: bool) {
    predicate Covers(v: int) { virt <= v < virt + pages }
  }

  datatype Space = Space(alive: bool, regions: seq<Reg.Region>, mappings: seq<Mapping>, ptes: map<nat, Pte>)

  datatype State = State(segs: seq<Seg.Segment>, spaces: seq<Space>, mem: seq<Page>)

  predicate Alive(st: State, a: nat) {
    a < |st.spaces| && st.spaces[a].alive
  }

  // ----- Page table entries of a mapping -----

  function WithEntries(ptes: map<nat, Pte>, m: Mapping): map<nat, Pte> {
    ptes + map v: nat | m.virt <= v < m.virt + m.pages && m.Covers(v) :: EntryOf(m, v)
  }

  function EntryOf(m: Mapping, v: nat): Pte
    requires m.Covers(v)
  {
    Pte(m.phy + (v - m.virt), m.write)
  }

  function WithoutEntries(ptes: map<nat, Pte>, m: Mapping): map<nat, Pte> {
    map v | v in ptes && !m.Covers(v) :: ptes[v]
  }

  function WriteProtected(ptes: map<nat, Pte>): map<nat, Pte> {
    map v | v in ptes :: Pte(ptes[v].frame, false)
  }

  // ----- Creating, mapping, unmapping -----

  function FreshSpace(l: Layout): Space
    requires l.userBegin <= l.kernelBegin
  {
    Space(true, [Span(l.userBegin, l.kernelBegin - l.userBegin, false)], [], map[])
  }

  function Create(l: Layout, st: State): State
    requires l.userBegin <= l.kernelBegin
  {
    st.(spaces := st.spaces + [FreshSpace(l)])
  }

  /** Maps `n` fresh pages at `virt`, or at any free place when `virt` is 0. */
  function MapFresh(st: State, a: nat, virt: nat, n: nat, write: bool): Option<State> {
    if !Alive(st, a) || n == 0 then None
    else
      var sp := st.spaces[a];
      var (regions, at) := Reg.Reserve(sp.regions, virt, n);
      var (segs, seg) := Seg.Alloc(st.segs, n);
      if at.None? || seg.None? then None
      else
        var m := Mapping(at.value, n, seg.value.base, write);
        var sp' := Space(true, regions, [m] + sp.mappings, WithEntries(sp.ptes, m));
        Some(State(segs, st.spaces[a := sp'], st.mem))
  }

  /** What a failed mapping leaves behind. A range found by the mapping itself is given back,
      which may join regions; one that was asked for by address stays reserved. */
  function MapFailed(st: State, a: nat, virt: nat, n: nat): State {
    if !Alive(st, a) || n == 0 then st
    else
      var sp := st.spaces[a];
      var (regions, at) := Reg.Reserve(sp.regions, virt, n);
      if at.None? then st
      else
        var left := if virt == 0 then Reg.Release(regions, at.value) else regions;
        st.(spaces := st.spaces[a := sp.(regions := left)])
  }

  /** The first mapping from index `i` on that begins at `virt`, or |ms|. */
  function MappingAt(ms: seq<Mapping>, virt: nat, i: nat): (k: nat)
    requires i <= |ms|
    ensures i <= k <= |ms|
    ensures k < |ms| ==> ms[k].virt == virt
    ensures forall j :: i <= j < k ==> ms[j].virt != virt
    decreases |ms| - i
  {
    if i == |ms| || ms[i].virt == virt then i else MappingAt(ms, virt, i + 1)
  }

  function Without(ms: seq<Mapping>, i: nat): seq<Mapping>
    requires i < |ms|
  {
    ms[..i] + ms[i + 1..]
  }

  /** Unmaps the mapping that begins at `virt` and gives up its reference. */
  function Unmap(st: State, a: nat, virt: nat): State {
    if !Alive(st, a) then st
    else
      var sp := st.spaces[a];
      var i := MappingAt(sp.mappings, virt, 0);
      if i == |sp.mappings| then st
      else
        var m := sp.mappings[i];
        var sp' := Space(true, Reg.Release(sp.regions, virt), Without(sp.mappings, i), WithoutEntries(sp.ptes, m));
        State(Seg.Release(st.segs, m.phy), st.spaces[a := sp'], st.mem)
  }

  /** Unmaps the mapping that begins at `virt` and leaves its reference with the kernel. */
  function Leave(st: State, a: nat, virt: nat): State {
    Unmap(st, a, virt).(segs := st.segs)
  }

  // ----- Forking and exiting -----

  /** One more reference; the segment of a writable mapping is marked copy-on-write. */
  function Share(segs: seq<Seg.Segment>, m: Mapping): seq<Seg.Segment> {
    var i := IndexOf(segs, m.phy, 0);
    if i == |segs| then segs
    else Retag(segs, m.phy, Seg.SegInfo(segs[i].tag.refs + 1, segs[i].tag.cow || m.write))
  }

  function ShareAll(segs: seq<Seg.Segment>, ms: seq<Mapping>): seq<Seg.Segment>
    decreases |ms|
  {
    if ms == [] then segs else ShareAll(Share(segs, ms[0]), ms[1..])
  }

  /** Reserves the ranges of all mappings; fails as soon as one is not to be had. */
  function ReserveAll(regions: seq<Reg.Region>, ms: seq<Mapping>): Option<seq<Reg.Region>>
    decreases |ms|
  {
    if ms == [] then Some(regions)
    else
      var (rs, at) := Reg.Reserve(regions, ms[0].virt, ms[0].pages);
      if at == Some(ms[0].virt) then ReserveAll(rs, ms[1..]) else None
  }

  function Reversed(ms: seq<Mapping>): seq<Mapping>
    decreases |ms|
  {
    if ms == [] then [] else Reversed(ms[1..]) + [ms[0]]
  }

  /** Duplicates an address space: the child shares every segment, and both lose write
      permission. The child is the new last space. */
  function Fork(l: Layout, st: State, a: nat): Option<State>
    requires l.userBegin <= l.kernelBegin
  {
    if !Alive(st, a) then None
    else
      var sp := st.spaces[a];
      var regions := ReserveAll(FreshSpace(l).regions, sp.mappings);
      if regions.None? then None
      else
        var shared := WriteProtected(sp.ptes);
        var child := Space(true, regions.value, Reversed(sp.mappings), shared);
        Some(State(ShareAll(st.segs, sp.mappings), st.spaces[a := sp.(ptes := shared)] + [child], st.mem))
  }

  function ReleaseAll(segs: seq<Seg.Segment>, ms: seq<Mapping>): seq<Seg.Segment>
    decreases |ms|
  {
    if ms == [] then segs else ReleaseAll(Seg.Release(segs, ms[0].phy), ms[1..])
  }

  const DEAD := Space(false, [], [], map[])

  /** Destroys an address space. */
  function Exit(st: State, a: nat): State {
    if !Alive(st, a) then st
    else State(ReleaseAll(st.segs, st.spaces[a].mappings), st.spaces[a := DEAD], st.mem)
  }

  // ----- The write fault -----

  /** The first mapping from index `i` on that contains page `v`, or |ms|. */
  function Locate(ms: seq<Mapping>, v: nat, i: nat): (k: nat)
    requires i <= |ms|
    ensures i <= k <= |ms|
    ensures k < |ms| ==> ms[k].Covers(v)
    ensures forall j :: i <= j < k ==> !ms[j].Covers(v)
    decreases |ms| - i
  {
    if i == |ms| || ms[i].Covers(v) then i else Locate(ms, v, i + 1)
  }

  function CopyPages(mem: seq<Page>, dst: nat, src: nat, n: nat): (r: seq<Page>)
    requires src + n <= |mem|
  {
    seq(|mem|, (f: int) requires 0 <= f < |mem| => if dst <= f < dst + n then mem[src + (f - dst)] else mem[f])
  }

  /** Gives mapping `i` a segment of its own: the only sharer keeps the segment and clears
      its mark, any other gets a copy. Nothing when the source panics. */
  function Cow(st: State, a: nat, i: nat): Option<State>
    requires Alive(st, a) && i < |st.spaces[a].mappings|
  {
    var sp := st.spaces[a];
    var m := sp.mappings[i];
    var k := IndexOf(st.segs, m.phy, 0);
    if k == |st.segs| then None
    else if st.segs[k].tag.refs == 1 then
      var sp' := sp.(ptes := WithEntries(sp.ptes, m));
      Some(State(Retag(st.segs, m.phy, st.segs[k].tag.(cow := false)), st.spaces[a := sp'], st.mem))
    else
      var (segs, seg) := Seg.Alloc(st.segs, m.pages);
      if seg.None? || m.phy + m.pages > |st.mem| then None
      else
        var m' := m.(phy := seg.value.base);
        var sp' := sp.(mappings := sp.mappings[i := m'], ptes := WithEntries(sp.ptes, m'));
        Some(State(Seg.Release(segs, m.phy), st.spaces[a := sp'],
                   CopyPages(st.mem, seg.value.base, m.phy, m.pages)))
  }

  /** A write fault of space `a` at page `v`. Nothing when the process is killed. */
  function WriteFault(st: State, a: nat, v: nat): Option<State> {
    if !Alive(st, a) then None
    else
      var ms := st.spaces[a].mappings;
      var i := Locate(ms, v, 0);
      if i == |ms| then None
      else
        var k := IndexOf(st.segs, ms[i].phy, 0);
        if k < |st.segs| && st.segs[k].tag.cow then Cow(st, a, i) else None
  }

  // ----- User loads and stores -----

  function Load(st: State, a: nat, v: nat, off: nat): Option<int> {
    if Alive(st, a) && v in st.spaces[a].ptes && st.spaces[a].ptes[v].frame < |st.mem| && off < PAGE_SIZE
    then Some(st.mem[st.spaces[a].ptes[v].frame][off]) else None
  }

  predicate Writable(st: State, a: nat, v: nat) {
    && Alive(st, a)
    && v in st.spaces[a].ptes
    && st.spaces[a].ptes[v].write
    && st.spaces[a].ptes[v].frame < |st.mem|
  }

  /** A store that the page tables let through. Nothing when it faults. */
  function Store(st: State, a: nat, v: nat, off: nat, b: int): Option<State> {
    if Writable(st, a, v) && off < PAGE_SIZE then
      var f := st.spaces[a].ptes[v].frame;
      Some(st.(mem := st.mem[f := st.mem[f][off := b]]))
    else None
  }
}
