// Virtual address ranges of one address space: reserved at a given place or wherever
// there is room, released by base address.

module Regions {
  import opened Common
  import opened Tiling

  /** The tag says whether the region is mapped. Addresses and sizes are in pages. */
  type Region = Span<bool>

  predicate Unmapped(mapped: bool) {
    !mapped
  }

  function Mapped(s: seq<Region>): set<Region> {
    Busy(Unmapped, s)
  }

  // ----- Reserving -----

  function SplitAt(s: seq<Region>, i: nat, addr: nat, n: nat): seq<Region>
    requires i < |s| && s[i].base <= addr && addr + n <= s[i].End()
  {
    Carve(s, i, addr, n, false, true)
  }

  lemma SplitCorrect(lo: nat, hi: nat, s: seq<Region>, i: nat, addr: nat, n: nat)
    requires Tiles(lo, hi, s) && i < |s| && !s[i].tag
    requires s[i].base <= addr && addr + n <= s[i].End() && n > 0
    ensures Tiles(lo, hi, SplitAt(s, i, addr, n))
    ensures Mapped(SplitAt(s, i, addr, n)) == Mapped(s) + {Span(addr, n, true)}
  {
    CarveTiles(lo, hi, s, i, addr, n, false, true);
    CarveBusy(Unmapped, s, i, addr, n, false, true);
  }

  /** A request is for any place when `addr` is 0, otherwise for that address. */
  predicate Suits(x: Region, addr: nat, n: nat) {
    !x.tag && (if addr == 0 then x.size >= n else x.Covers(addr))
  }

  /** The first unmapped region from `i` on that the request concerns, or |s|. */
  function FirstSuiting(s: seq<Region>, addr: nat, n: nat, i: nat): (k: nat)
    requires i <= |s|
    ensures i <= k <= |s|
    ensures k < |s| ==> Suits(s[k], addr, n)
    ensures forall j :: i <= j < k ==> !Suits(s[j], addr, n)
    decreases |s| - i
  {
    if i == |s| || Suits(s[i], addr, n) then i else FirstSuiting(s, addr, n, i + 1)
  }

  function Reserve(s: seq<Region>, addr: nat, n: nat): (r: (seq<Region>, Option<nat>)) {
    var i := FirstSuiting(s, addr, n, 0);
    if i == |s| then (s, None)
    else
      var at := if addr == 0 then s[i].base else addr;
      if at + n > s[i].End() then (s, None) else (SplitAt(s, i, at, n), Some(at))
  }

  /** One unmapped region holds the n pages from `addr` on. */
  ghost predicate InOneFree(s: seq<Region>, addr: nat, n: nat) {
    exists i :: 0 <= i < |s| && !s[i].tag && s[i].base <= addr && addr + n <= s[i].End()
  }

  /** A reservation keeps the partition and maps exactly the range it returns, which was
      wholly free; it fails exactly when no single unmapped region holds what was asked. */
  lemma ReserveCorrect(lo: nat, hi: nat, s: seq<Region>, addr: nat, n: nat)
    requires Tiles(lo, hi, s) && n > 0
    ensures var (s', r) := Reserve(s, addr, n);
            && Tiles(lo, hi, s')
            && (r.None? ==> s' == s)
            && (r.Some? ==> Mapped(s') == Mapped(s) + {Span(r.value, n, true)}
                            && AllFree(Unmapped, s, r.value, n)
                            && (addr != 0 ==> r.value == addr))
            && (r.Some? <==> if addr == 0 then exists p: nat :: InOneFree(s, p, n) else InOneFree(s, addr, n))
  {
    var i := FirstSuiting(s, addr, n, 0);
    var (s', r) := Reserve(s, addr, n);
    if r.Some? {
      SplitCorrect(lo, hi, s, i, r.value, n);
      assert InOneFree(s, r.value, n);
      forall q | r.value <= q < r.value + n ensures UnitFree(Unmapped, s, q) {
        assert Unmapped(s[i].tag) && s[i].Covers(q);
      }
    } else if addr != 0 && InOneFree(s, addr, n) {
      var k :| 0 <= k < |s| && !s[k].tag && s[k].base <= addr && addr + n <= s[k].End();
      assert Suits(s[k], addr, n);
      TilesDisjoint(lo, hi, s, i, k, addr);
    }
  }

  /** Without an address the lowest place that one unmapped region has for it is taken. */
  lemma ReserveLowest(lo: nat, hi: nat, s: seq<Region>, n: nat, p: nat)
    requires Tiles(lo, hi, s) && n > 0 && InOneFree(s, p, n)
    ensures Reserve(s, 0, n).1.Some? && Reserve(s, 0, n).1.value <= p
  {
    var k :| 0 <= k < |s| && !s[k].tag && s[k].base <= p && p + n <= s[k].End();
    var i := FirstSuiting(s, 0, n, 0);
    assert Suits(s[k], 0, n);
    if i < k { TilesOrdered(lo, hi, s, i, k); }
  }

  /** As long as nothing was released, every range that is wholly free can be reserved. */
  lemma ReserveFreeRange(lo: nat, hi: nat, s: seq<Region>, addr: nat, n: nat)
    requires Tiles(lo, hi, s) && Coalesced(Unmapped, s) && addr > 0 && n > 0
    requires AllFree(Unmapped, s, addr, n)
    ensures Reserve(s, addr, n).1 == Some(addr)
    ensures Tiles(lo, hi, Reserve(s, addr, n).0) && Coalesced(Unmapped, Reserve(s, addr, n).0)
    ensures Mapped(Reserve(s, addr, n).0) == Mapped(s) + {Span(addr, n, true)}
  {
    var k := FreeRunInOneSpan(Unmapped, lo, hi, s, addr, n);
    assert InOneFree(s, addr, n);
    ReserveCorrect(lo, hi, s, addr, n);
    CarveCoalesced(Unmapped, s, FirstSuiting(s, addr, n, 0), addr, n, false, true);
  }

  // ----- Releasing -----

  /** Joins region `i` with an unmapped left neighbour of the same size (the source compares
      with the size of the region itself), then with an unmapped right neighbour. */
  function MergeAt(s: seq<Region>, i: nat): seq<Region>
    requires i < |s|
  {
    var (t, k) := MergeLeft(s, i);
    MergeRight(t, k)
  }

  /** The list after the join with the left neighbour, and where the region is now. */
  function MergeLeft(s: seq<Region>, i: nat): (r: (seq<Region>, nat))
    requires i < |s|
    ensures r.1 < |r.0|
  {
    if i > 0 && !s[i - 1].tag && s[i - 1].base + s[i].size == s[i].base then (JoinNext(s, i - 1, s[i].tag), i - 1)
    else (s, i)
  }

  function MergeRight(s: seq<Region>, k: nat): seq<Region>
    requires k < |s|
  {
    if k + 1 < |s| && !s[k + 1].tag && s[k].End() == s[k + 1].base then JoinNext(s, k, s[k].tag) else s
  }

  /** Unmaps the region that begins at `addr`, if there is one. */
  function Release(s: seq<Region>, addr: nat): seq<Region> {
    var i := IndexOf(s, addr, 0);
    if i == |s| then s else MergeAt(s[i := s[i].(tag := false)], i)
  }

  lemma MergeCorrect(lo: nat, hi: nat, s: seq<Region>, i: nat)
    requires Tiles(lo, hi, s) && i < |s| && !s[i].tag
    ensures Tiles(lo, hi, MergeAt(s, i))
    ensures Mapped(MergeAt(s, i)) == Mapped(s)
  {
    hide Tiles, Mapped, MergeLeft, MergeRight;
    MergeLeftCorrect(lo, hi, s, i);
    MergeRightCorrect(lo, hi, MergeLeft(s, i).0, MergeLeft(s, i).1);
  }

  lemma MergeLeftCorrect(lo: nat, hi: nat, s: seq<Region>, i: nat)
    requires Tiles(lo, hi, s) && i < |s| && !s[i].tag
    ensures var r := MergeLeft(s, i);
            Tiles(lo, hi, r.0) && Mapped(r.0) == Mapped(s) && !r.0[r.1].tag
  {
    hide Tiles, Busy;
    if i > 0 && !s[i - 1].tag && s[i - 1].base + s[i].size == s[i].base {
      JoinTiles(lo, hi, s, i - 1, false);
      JoinFreeBusy(Unmapped, s, i - 1, false);
    }
  }

  lemma MergeRightCorrect(lo: nat, hi: nat, s: seq<Region>, k: nat)
    requires Tiles(lo, hi, s) && k < |s| && !s[k].tag
    ensures Tiles(lo, hi, MergeRight(s, k)) && Mapped(MergeRight(s, k)) == Mapped(s)
  {
    hide Tiles, Busy;
    if k + 1 < |s| && !s[k + 1].tag && s[k].End() == s[k + 1].base {
      JoinTiles(lo, hi, s, k, false);
      JoinFreeBusy(Unmapped, s, k, false);
    }
  }

  /** A release keeps the partition and unmaps exactly the region that begins at `addr`: the
      size test never joins regions that do not touch. */
  lemma ReleaseCorrect(lo: nat, hi: nat, s: seq<Region>, addr: nat)
    requires Tiles(lo, hi, s)
    ensures Tiles(lo, hi, Release(s, addr))
    ensures Mapped(Release(s, addr)) == set x | x in Mapped(s) && x.base != addr
  {
    var i := IndexOf(s, addr, 0);
    forall x | x in Mapped(s) && x.base == addr ensures i < |s| && x == s[i] {
      var j :| 0 <= j < |s| && s[j] == x;
      TilesBaseUnique(lo, hi, s, i, j);
    }
    if i < |s| {
      var t := s[i := s[i].(tag := false)];
      RetagTiles(lo, hi, s, i, false);
      BusyUpdate(Unmapped, lo, hi, s, i, t[i]);
      MergeCorrect(lo, hi, t, i);
    }
  }

  lemma MappedUnique(lo: nat, hi: nat, s: seq<Region>, x: Region, y: Region)
    requires Tiles(lo, hi, s) && x in Mapped(s) && y in Mapped(s) && x.base == y.base
    ensures x == y
  {
    var i :| 0 <= i < |s| && s[i] == x;
    var j :| 0 <= j < |s| && s[j] == y;
    TilesBaseUnique(lo, hi, s, i, j);
  }

  /** The pages of a released region are in one unmapped region. */
  lemma ReleaseMakesRoom(lo: nat, hi: nat, s: seq<Region>, x: Region)
    requires Tiles(lo, hi, s) && x in Mapped(s)
    ensures InOneFree(Release(s, x.base), x.base, x.size)
  {
    var j :| 0 <= j < |s| && s[j] == x;
    var i := IndexOf(s, x.base, 0);
    TilesBaseUnique(lo, hi, s, i, j);
    RetagTiles(lo, hi, s, i, false);
    MergeHolds(lo, hi, s[i := s[i].(tag := false)], i);
  }

  lemma MergeHolds(lo: nat, hi: nat, s: seq<Region>, i: nat)
    requires Tiles(lo, hi, s) && i < |s| && !s[i].tag
    ensures InOneFree(MergeAt(s, i), s[i].base, s[i].size)
  {
    if i > 0 { TilesAt(lo, hi, s, i - 1); }
    hide JoinNext, Tiles;
    var (t, k) := MergeLeft(s, i);
    var r := MergeRight(t, k);
    assert !t[k].tag && t[k].base <= s[i].base && s[i].base + s[i].size <= t[k].End();
    assert k < |r| && !r[k].tag && r[k].base <= s[i].base && s[i].base + s[i].size <= r[k].End();
  }

  /** A free left neighbour is joined exactly when it has the size of the released region. */
  lemma LeftMergeExact(lo: nat, hi: nat, s: seq<Region>, i: nat)
    requires Tiles(lo, hi, s) && 0 < i < |s| && s[i].tag && !s[i - 1].tag
    ensures s[i - 1] !in Release(s, s[i].base) <==> s[i - 1].size == s[i].size
  {
    TilesAt(lo, hi, s, i - 1);
    TilesBaseUnique(lo, hi, s, i, IndexOf(s, s[i].base, 0));
    var t := s[i := s[i].(tag := false)];
    var r := Release(s, s[i].base);
    assert r == MergeAt(t, i);
    if s[i - 1].size == s[i].size {
      RetagTiles(lo, hi, s, i, false);
      MergeCorrect(lo, hi, t, i);
      if s[i - 1] in r {
        var j :| 0 <= j < |r| && r[j] == s[i - 1];
        TilesBaseUnique(lo, hi, r, i - 1, j);
      }
    } else {
      assert r[i - 1] == s[i - 1];
    }
  }

  /** A right neighbour is joined exactly when it is free. */
  lemma RightMergeExact(lo: nat, hi: nat, s: seq<Region>, i: nat)
    requires Tiles(lo, hi, s) && i + 1 < |s| && s[i].tag
    ensures s[i + 1] !in Release(s, s[i].base) <==> !s[i + 1].tag
  {
    TilesAt(lo, hi, s, i);
    TilesBaseUnique(lo, hi, s, i, IndexOf(s, s[i].base, 0));
    RetagTiles(lo, hi, s, i, false);
    var t := s[i := s[i].(tag := false)];
    var (u, k) := MergeLeft(t, i);
    var r := Release(s, s[i].base);
    MergeLeftCorrect(lo, hi, t, i);
    MergeCorrect(lo, hi, t, i);
    assert r == MergeRight(u, k);
    hide Tiles, MergeAt, Release, Busy;
    if i > 0 { TilesAt(lo, hi, t, i - 1); }
    assert k + 1 < |u| && u[k + 1] == s[i + 1] && u[k].End() == s[i + 1].base;
    if s[i + 1].tag {
      assert r[k + 1] == s[i + 1];
    } else {
      NotAfterJoin(lo, hi, u, r, k, s[i + 1]);
    }
  }

  /** A span that was joined to the one in front of it is not in the list any more. */
  lemma NotAfterJoin(lo: nat, hi: nat, u: seq<Region>, r: seq<Region>, k: nat, x: Region)
    requires Tiles(lo, hi, u) && Tiles(lo, hi, r) && k + 1 < |u| && u[k + 1] == x
    requires k < |r| && r[k].base == u[k].base && r[k].End() == x.End()
    ensures x !in r
  {
    TilesAt(lo, hi, u, k);
    TilesAt(lo, hi, u, k + 1);
    if x in r {
      var j :| 0 <= j < |r| && r[j] == x;
      TilesDisjoint(lo, hi, r, k, j, x.base);
    }
  }
}
