// The operations on address spaces as the kernel runs them: fields updated in place, lists
// walked in loops. Each is proved to make the step of the state machine.

module AddressSpaces {
  import opened Common
  import opened Tiling
  import opened SegmentMap
  import opened VirtualMemory
  import opened CowInvariant
  import opened CowSteps
  import opened CowRefinement
  import Seg = Segments
  import Reg = Regions

  lemma {:induction false} ReversedSnoc(ms: seq<Mapping>, m: Mapping)
    ensures Reversed(ms + [m]) == [m] + Reversed(ms)
    decreases |ms|
  {
    if ms == [] {
      assert ms + [m] == [m] && [m][1..] == [];
    } else {
      assert (ms + [m])[1..] == ms[1..] + [m];
      ReversedSnoc(ms[1..], m);
    }
  }

  class Kernel {
    var segs: seq<Seg.Segment>
    var spaces: seq<Space>
    var mem: seq<Page>

    function Now(): State
      reads this
    {
      State(segs, spaces, mem)
    }

    constructor (segments: seq<Seg.Segment>, memory: seq<Page>)
      ensures Now() == State(segments, [], memory)
    {
      segs, spaces, mem := segments, [], memory;
    }

    /** as_mapping_locate: the index of the mapping that contains page `v`. */
    method FindMapping(a: nat, v: nat) returns (i: nat)
      requires a < |spaces|
      ensures i == Locate(spaces[a].mappings, v, 0)
    {
      var ms := spaces[a].mappings;
      i := 0;
      while i < |ms|
        invariant i <= |ms| && Locate(ms, v, 0) == Locate(ms, v, i)
      {
        if ms[i].Covers(v) { return; }
        i := i + 1;
      }
    }

    /** as_map with a fresh segment. */
    method MapPages(a: nat, virt: nat, n: nat, write: bool) returns (at: Option<nat>)
      requires Alive(Now(), a)
      modifies this
      ensures var r := MapFresh(old(Now()), a, virt, n, write);
              && at.Some? == r.Some?
              && Now() == (if r.Some? then r.value else MapFailed(old(Now()), a, virt, n))
              && (r.Some? ==> spaces[a].mappings != [] && at.value == spaces[a].mappings[0].virt)
    {
      if n == 0 { return None; }
      var (regions, place) := Reg.Reserve(spaces[a].regions, virt, n);
      if place.None? { return None; }
      var (segs', seg) := Seg.Alloc(segs, n);
      if seg.None? {
        if virt == 0 { regions := Reg.Release(regions, place.value); }
        spaces := spaces[a := spaces[a].(regions := regions)];
        return None;
      }
      var m := Mapping(place.value, n, seg.value.base, write);
      segs := segs';
      spaces := spaces[a := Space(true, regions, [m] + spaces[a].mappings, WithEntries(spaces[a].ptes, m))];
      at := Some(m.virt);
    }

    /** as_unmap: the first mapping that begins at `virt` goes, and its reference if asked. */
    method UnmapPages(a: nat, virt: nat, release: bool)
      requires Alive(Now(), a)
      modifies this
      ensures Now() == if release then Unmap(old(Now()), a, virt) else Leave(old(Now()), a, virt)
    {
      var sp := spaces[a];
      var i := 0;
      while i < |sp.mappings|
        invariant i <= |sp.mappings| && Now() == old(Now())
        invariant MappingAt(sp.mappings, virt, 0) == MappingAt(sp.mappings, virt, i)
      {
        if sp.mappings[i].virt == virt {
          var m := sp.mappings[i];
          sp := sp.(regions := Reg.Release(sp.regions, virt));
          if release { segs := Seg.Release(segs, m.phy); }
          sp := sp.(ptes := WithoutEntries(sp.ptes, m));
          sp := sp.(mappings := Without(sp.mappings, i));
          spaces := spaces[a := sp];
          return;
        }
        i := i + 1;
      }
    }

    /** The loop of as_duplicate: one more reference per mapping, and the same ranges and
        mappings for the child. */
    method ShareMappings(l: Layout, ms: seq<Mapping>) returns (child: Space)
      requires l.userBegin <= l.kernelBegin
      requires ReserveAll(FreshSpace(l).regions, ms).Some?
      modifies this`segs
      ensures segs == ShareAll(old(segs), ms)
      ensures child == Space(true, ReserveAll(FreshSpace(l).regions, ms).value, Reversed(ms), map[])
    {
      hide Reg.Reserve, Share, Reversed;
      child := FreshSpace(l);
      assert ms[..0] == [] && ms[0..] == ms;
      assert Reversed([]) == [] by { ReversedIndex([]); }
      var i := 0;
      while i < |ms|
        invariant i <= |ms| && child.alive && child.ptes == map[]
        invariant ReserveAll(FreshSpace(l).regions, ms) == ReserveAll(child.regions, ms[i..])
        invariant ShareAll(old(segs), ms) == ShareAll(segs, ms[i..])
        invariant child.mappings == Reversed(ms[..i])
      {
        var m := ms[i];
        ghost var rest := ms[i..];
        assert rest[0] == m && rest[1..] == ms[i + 1..];
        var (regions, at) := Reg.Reserve(child.regions, m.virt, m.pages);
        segs := Share(segs, m);
        child := child.(regions := regions, mappings := [m] + child.mappings);
        assert ms[..i + 1] == ms[..i] + [m];
        ReversedSnoc(ms[..i], m);
        i := i + 1;
      }
      assert ms[..|ms|] == ms && ms[|ms|..] == [];
    }

    /** as_duplicate: shares every mapping, then write protects the page tables of both
        sides. */
    method Duplicate(l: Layout, a: nat, ghost pinned: set<nat>)
      requires Inv(l, Now(), pinned) && Alive(Now(), a)
      modifies this
      ensures Fork(l, old(Now()), a).Some? && Now() == Fork(l, old(Now()), a).value
      ensures Inv(l, Now(), pinned)
    {
      ForkKeepsInv(l, Now(), pinned, a);
      hide Inv, ReserveAll, ShareAll, Reversed, WriteProtected;
      var child := ShareMappings(l, spaces[a].mappings);
      var shared := WriteProtected(spaces[a].ptes);
      spaces := spaces[a := spaces[a].(ptes := shared)] + [child.(ptes := shared)];
    }

    /** as_destroy: every mapping gives up its reference. */
    method Destroy(a: nat)
      requires Alive(Now(), a)
      modifies this
      ensures Now() == Exit(old(Now()), a)
    {
      var ms := spaces[a].mappings;
      var i := 0;
      while i < |ms|
        invariant i <= |ms| && spaces == old(spaces) && mem == old(mem)
        invariant ReleaseAll(old(segs), ms) == ReleaseAll(segs, ms[i..])
      {
        assert ms[i..][0] == ms[i] && ms[i..][1..] == ms[i + 1..];
        segs := Seg.Release(segs, ms[i].phy);
        i := i + 1;
      }
      spaces := spaces[a := DEAD];
    }

    /** Copies `n` pages of physical memory, page by page. */
    method CopyFrames(dst: nat, src: nat, n: nat)
      requires src + n <= |mem| && dst + n <= |mem|
      requires dst + n <= src || src + n <= dst
      modifies this`mem
      ensures mem == CopyPages(old(mem), dst, src, n)
    {
      var k := 0;
      while k < n
        invariant k <= n && |mem| == |old(mem)|
        invariant mem == CopyPages(old(mem), dst, src, k)
      {
        assert mem[src + k] == old(mem)[src + k];
        mem := mem[dst + k := mem[src + k]];
        k := k + 1;
      }
    }

    /** The write-fault branch of the page fault handler and the copying it does. */
    method HandleWriteFault(l: Layout, a: nat, v: nat, ghost pinned: set<nat>) returns (ok: bool)
      requires Inv(l, Now(), pinned) && Alive(Now(), a)
      modifies this
      ensures var r := WriteFault(old(Now()), a, v);
              ok == r.Some? && Now() == if ok then r.value else old(Now())
    {
      hide Inv, WithEntries, Seg.Alloc, Seg.Release, Retag;
      ghost var before := Now();
      var i := FindMapping(a, v);
      if i == |spaces[a].mappings| { return false; }
      var m := spaces[a].mappings[i];
      var k := IndexOf(segs, m.phy, 0);
      MappingIsOk(l, before, pinned, a, i);
      SegmentsOk(l, before, pinned);
      TableIndex(l.lo, l.hi, segs, m.phy);
      if !segs[k].tag.cow { return false; }
      if segs[k].tag.refs == 1 {
        segs := Retag(segs, m.phy, segs[k].tag.(cow := false));
      } else {
        var (segs', seg) := Seg.Alloc(segs, m.pages);
        if seg.None? { return false; }
        AllocBounds(l, segs, m.pages);
        FreshApart(l, segs, m.pages, m.phy);
        CopyFrames(seg.value.base, m.phy, m.pages);
        segs := Seg.Release(segs', m.phy);
        m := m.(phy := seg.value.base);
      }
      spaces := spaces[a := spaces[a].(mappings := spaces[a].mappings[i := m], ptes := WithEntries(spaces[a].ptes, m))];
      assert before.spaces[a].mappings[i := before.spaces[a].mappings[i]] == before.spaces[a].mappings;
      ok := true;
    }
  }

  /** A fresh segment lies wholly before or wholly after one in use. */
  lemma FreshApart(l: Layout, segs: seq<Seg.Segment>, n: nat, b: nat)
    requires Seg.Inv(l.lo, l.hi, segs) && n > 0 && Seg.Alloc(segs, n).1.Some?
    requires b in Table(segs) && Table(segs)[b].size == n
    ensures var x := Seg.Alloc(segs, n).1.value.base;
            x + n <= b || b + n <= x
  {
    var x := Seg.Alloc(segs, n).1.value;
    AllocTable(l.lo, l.hi, segs, n);
    if b <= x.base < b + n { FreshFrames(l, segs, n, b, x.base); }
    if x.base <= b < x.base + n { FreshFrames(l, segs, n, b, b); }
  }
}
