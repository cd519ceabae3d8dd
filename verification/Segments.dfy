// The allocator of physical memory: reference-counted segments of page frames,
// split on allocation and joined with free neighbours on the last release.

module Segments {
  import opened Common
  import opened Tiling

  /** Reference count and copy-on-write mark of a segment. */
  datatype SegInfo = SegInfo(refs: nat, cow: bool)

  /** Addresses and sizes are in pages. */
  type Segment = Span<SegInfo>

  predicate Unused(t: SegInfo) {
    t.refs == 0
  }

  predicate IsFree(x: Segment) {
    Unused(x.tag)
  }

  function InUse(s: seq<Segment>): set<Segment> {
    Busy(Unused, s)
  }

  /** What every operation keeps: the list tiles lo..hi and free neighbours are joined. */
  ghost predicate Inv(lo: nat, hi: nat, s: seq<Segment>) {
    Tiles(lo, hi, s) && Coalesced(Unused, s)
  }

  // ----- Splitting -----

  /** `n` pages of segment `i` from `addr` on come into use. They keep the mark of the
      segment; what is left on either side is unmarked. */
  function SplitAt(s: seq<Segment>, i: nat, addr: nat, n: nat): seq<Segment>
    requires i < |s| && s[i].base <= addr && addr + n <= s[i].End()
  {
    Carve(s, i, addr, n, SegInfo(0, false), SegInfo(1, s[i].tag.cow))
  }

  lemma SplitInUse(s: seq<Segment>, i: nat, addr: nat, n: nat)
    requires i < |s| && IsFree(s[i])
    requires s[i].base <= addr && addr + n <= s[i].End()
    ensures InUse(SplitAt(s, i, addr, n)) == InUse(s) + {Span(addr, n, SegInfo(1, s[i].tag.cow))}
  {
    CarveBusy(Unused, s, i, addr, n, SegInfo(0, false), SegInfo(1, s[i].tag.cow));
  }

  lemma SplitKeepsInv(lo: nat, hi: nat, s: seq<Segment>, i: nat, addr: nat, n: nat)
    requires Inv(lo, hi, s) && i < |s| && IsFree(s[i])
    requires s[i].base <= addr && addr + n <= s[i].End() && n > 0
    ensures Inv(lo, hi, SplitAt(s, i, addr, n))
  {
    CarveTiles(lo, hi, s, i, addr, n, SegInfo(0, false), SegInfo(1, s[i].tag.cow));
    CarveCoalesced(Unused, s, i, addr, n, SegInfo(0, false), SegInfo(1, s[i].tag.cow));
  }

  // ----- Allocating -----

  /** The first free segment from index `i` on with at least `n` pages, or |s|. */
  function FirstFit(s: seq<Segment>, n: nat, i: nat): (k: nat)
    requires i <= |s|
    ensures i <= k <= |s|
    ensures k < |s| ==> IsFree(s[k]) && s[k].size >= n
    ensures forall j :: i <= j < k ==> !(IsFree(s[j]) && s[j].size >= n)
    decreases |s| - i
  {
    if i == |s| || (IsFree(s[i]) && s[i].size >= n) then i else FirstFit(s, n, i + 1)
  }

  function Alloc(s: seq<Segment>, n: nat): (r: (seq<Segment>, Option<Segment>)) {
    if n == 0 then (s, None)
    else
      var i := FirstFit(s, n, 0);
      if i == |s| then (s, None)
      else (SplitAt(s, i, s[i].base, n), Some(Span(s[i].base, n, SegInfo(1, s[i].tag.cow))))
  }

  /** Allocation keeps the invariant, adds exactly the returned segment to those in use,
      takes only free pages, and fails exactly when no run of free pages is long enough. */
  lemma AllocCorrect(lo: nat, hi: nat, s: seq<Segment>, n: nat)
    requires Inv(lo, hi, s) && n > 0
    ensures var (s', r) := Alloc(s, n);
            && Inv(lo, hi, s')
            && (r.Some? ==> r.value.size == n && r.value.tag.refs == 1
                            && InUse(s') == InUse(s) + {r.value} && AllFree(Unused, s, r.value.base, n))
            && (r.None? ==> s' == s)
            && (r.None? <==> forall p: nat :: !AllFree(Unused, s, p, n))
  {
    var i := FirstFit(s, n, 0);
    if i < |s| {
      SplitKeepsInv(lo, hi, s, i, s[i].base, n);
      SplitInUse(s, i, s[i].base, n);
      assert AllFree(Unused, s, s[i].base, n);
    } else {
      forall p: nat | AllFree(Unused, s, p, n) ensures false {
        var k := FreeRunInOneSpan(Unused, lo, hi, s, p, n);
      }
    }
  }

  /** The first free segment from `i` on whose closed address range contains `addr`, or |s|;
      the address just past its end counts as inside, as in the source. */
  function FirstHolding(s: seq<Segment>, addr: nat, i: nat): (k: nat)
    requires i <= |s|
    ensures i <= k <= |s|
    ensures k < |s| ==> IsFree(s[k]) && s[k].base <= addr <= s[k].End()
    ensures forall j :: i <= j < k ==> !(IsFree(s[j]) && s[j].base <= addr <= s[j].End())
    decreases |s| - i
  {
    if i == |s| || (IsFree(s[i]) && s[i].base <= addr <= s[i].End()) then i
    else FirstHolding(s, addr, i + 1)
  }

  function Reserve(s: seq<Segment>, addr: nat, n: nat): (r: (seq<Segment>, bool)) {
    if n == 0 then (s, false)
    else
      var i := FirstHolding(s, addr, 0);
      if i == |s| || addr + n > s[i].End() then (s, false)
      else (SplitAt(s, i, addr, n), true)
  }

  /** Reserving succeeds exactly when all the pages asked for are free, although the search
      stops at a segment that merely ends at `addr`. */
  lemma ReserveCorrect(lo: nat, hi: nat, s: seq<Segment>, addr: nat, n: nat)
    requires Inv(lo, hi, s) && n > 0
    ensures var (s', ok) := Reserve(s, addr, n);
            && Inv(lo, hi, s')
            && (ok <==> AllFree(Unused, s, addr, n))
            && (!ok ==> s' == s)
            && (ok ==> exists cow :: InUse(s') == InUse(s) + {Span(addr, n, SegInfo(1, cow))})
  {
    var i := FirstHolding(s, addr, 0);
    if i < |s| && addr + n <= s[i].End() {
      SplitKeepsInv(lo, hi, s, i, addr, n);
      SplitInUse(s, i, addr, n);
      assert AllFree(Unused, s, addr, n);
    } else if AllFree(Unused, s, addr, n) {
      var k := FreeRunInOneSpan(Unused, lo, hi, s, addr, n);
      assert i < k;
      if i + 1 < k {
        TilesOrdered(lo, hi, s, i, i + 1);
        TilesOrdered(lo, hi, s, i + 1, k);
        TilesAt(lo, hi, s, i + 1);
      }
    }
  }

  /** The lowest free pages in a row are taken. */
  lemma AllocLowest(lo: nat, hi: nat, s: seq<Segment>, n: nat, p: nat)
    requires Inv(lo, hi, s) && n > 0 && AllFree(Unused, s, p, n)
    ensures Alloc(s, n).1.Some? && Alloc(s, n).1.value.base <= p
  {
    hide AllFree;
    var k := FreeRunInOneSpan(Unused, lo, hi, s, p, n);
    var i := FirstFit(s, n, 0);
    if i < k { TilesOrdered(lo, hi, s, i, k); }
  }

  // ----- Releasing -----

  /** Joins segment `i` with a free left neighbour, then with a free right one. The joined
      segment keeps the record of segment `i`. */
  function MergeAt(s: seq<Segment>, i: nat): (r: seq<Segment>)
    requires i < |s|
  {
    var (t, k) := MergeLeft(s, i);
    MergeRight(t, k)
  }

  /** The list after the join with the left neighbour, and where the segment is now. */
  function MergeLeft(s: seq<Segment>, i: nat): (r: (seq<Segment>, nat))
    requires i < |s|
    ensures r.1 < |r.0|
  {
    if i > 0 && IsFree(s[i - 1]) && s[i - 1].End() == s[i].base then (JoinNext(s, i - 1, s[i].tag), i - 1)
    else (s, i)
  }

  function MergeRight(s: seq<Segment>, k: nat): seq<Segment>
    requires k < |s|
  {
    if k + 1 < |s| && IsFree(s[k + 1]) && s[k].End() == s[k + 1].base then JoinNext(s, k, s[k].tag)
    else s
  }

  function DropRef(x: Segment): Segment
    requires !IsFree(x)
  {
    x.(tag := x.tag.(refs := x.tag.refs - 1))
  }

  function ReleaseAt(s: seq<Segment>, i: nat): seq<Segment>
    requires i < |s| && !IsFree(s[i])
  {
    var t := s[i := DropRef(s[i])];
    if IsFree(t[i]) then MergeAt(t, i) else t
  }

  /** Gives up one reference to the segment that begins at `addr`. */
  function Release(s: seq<Segment>, addr: nat): seq<Segment> {
    var i := IndexOf(s, addr, 0);
    if i == |s| || IsFree(s[i]) then s else ReleaseAt(s, i)
  }

  lemma MergeLeftCorrect(lo: nat, hi: nat, s: seq<Segment>, i: nat)
    requires Tiles(lo, hi, s) && i < |s| && IsFree(s[i]) && CoalescedBut(Unused, s, i)
    ensures var (t, k) := MergeLeft(s, i);
            && Tiles(lo, hi, t) && IsFree(t[k]) && CoalescedBut(Unused, t, k) && InUse(t) == InUse(s)
            && (k > 0 ==> !IsFree(t[k - 1]))
  {
    hide Tiles, Busy, JoinNext, CoalescedBut;
    if i > 0 && IsFree(s[i - 1]) {
      TilesAt(lo, hi, s, i - 1);
      JoinIndex(s, i - 1, s[i].tag);
      JoinTiles(lo, hi, s, i - 1, s[i].tag);
      JoinFreeBusy(Unused, s, i - 1, s[i].tag);
      JoinCoalesced(Unused, s, i - 1, s[i].tag);
    }
  }

  lemma MergeRightCorrect(lo: nat, hi: nat, s: seq<Segment>, k: nat)
    requires Tiles(lo, hi, s) && k < |s| && IsFree(s[k]) && CoalescedBut(Unused, s, k)
    requires k > 0 ==> !IsFree(s[k - 1])
    ensures Inv(lo, hi, MergeRight(s, k)) && InUse(MergeRight(s, k)) == InUse(s)
  {
    hide Tiles, Busy, JoinNext, Coalesced, CoalescedBut;
    TilesAt(lo, hi, s, k);
    if k + 1 < |s| && IsFree(s[k + 1]) {
      JoinIndex(s, k, s[k].tag);
      JoinTiles(lo, hi, s, k, s[k].tag);
      JoinFreeBusy(Unused, s, k, s[k].tag);
      JoinCoalesced(Unused, s, k, s[k].tag);
    }
    CoalescedWhenDone(Unused, MergeRight(s, k), k);
  }

  lemma MergeKeepsInv(lo: nat, hi: nat, s: seq<Segment>, i: nat)
    requires Tiles(lo, hi, s) && i < |s| && IsFree(s[i]) && CoalescedBut(Unused, s, i)
    ensures Inv(lo, hi, MergeAt(s, i))
    ensures InUse(MergeAt(s, i)) == InUse(s)
  {
    hide Tiles, MergeLeft, MergeRight, CoalescedBut;
    MergeLeftCorrect(lo, hi, s, i);
    MergeRightCorrect(lo, hi, MergeLeft(s, i).0, MergeLeft(s, i).1);
  }

  lemma ReleaseAtCorrect(lo: nat, hi: nat, s: seq<Segment>, i: nat)
    requires Inv(lo, hi, s) && i < |s| && !IsFree(s[i])
    ensures Inv(lo, hi, ReleaseAt(s, i))
    ensures InUse(ReleaseAt(s, i)) == InUse(s) - {s[i]} + InUse([DropRef(s[i])])
  {
    var t := s[i := DropRef(s[i])];
    RetagTiles(lo, hi, s, i, DropRef(s[i]).tag);
    BusyUpdate(Unused, lo, hi, s, i, DropRef(s[i]));
    if IsFree(t[i]) { MergeKeepsInv(lo, hi, t, i); }
  }

  /** A release keeps the invariant and touches only the segment that begins at `addr`: one
      reference less, and gone from those in use at the last one. */
  lemma ReleaseCorrect(lo: nat, hi: nat, s: seq<Segment>, addr: nat)
    requires Inv(lo, hi, s)
    ensures Inv(lo, hi, Release(s, addr))
    ensures forall x :: x in InUse(s) && x.base == addr ==>
              InUse(Release(s, addr)) == InUse(s) - {x} + InUse([DropRef(x)])
    ensures (forall x :: x in InUse(s) ==> x.base != addr) ==> Release(s, addr) == s
  {
    var i := IndexOf(s, addr, 0);
    forall x | x in InUse(s) && x.base == addr ensures i < |s| && x == s[i] {
      var j :| 0 <= j < |s| && s[j] == x;
      TilesBaseUnique(lo, hi, s, i, j);
    }
    if i < |s| && !IsFree(s[i]) {
      ReleaseAtCorrect(lo, hi, s, i);
      assert s[i] in InUse(s);
    }
  }

  /** A free segment has no free neighbours. */
  lemma AloneInList(s: seq<Segment>, i: nat)
    requires Coalesced(Unused, s) && i < |s| && IsFree(s[i])
    ensures (i > 0 ==> !IsFree(s[i - 1])) && (i + 1 < |s| ==> !IsFree(s[i + 1]))
  {
  }

  /** The front of a split segment, free again, is joined with the rest. */
  lemma RejoinFront(s: seq<Segment>, i: nat, n: nat, u: seq<Segment>)
    requires i < |s| && IsFree(s[i]) && 0 < n < s[i].size
    requires |u| == |s| + 1 && u[i] == Span(s[i].base, n, s[i].tag)
    requires u[i + 1] == Span(s[i].base + n, s[i].size - n, SegInfo(0, false))
    requires (forall j :: 0 <= j < i ==> u[j] == s[j]) && (forall j :: i + 1 < j < |u| ==> u[j] == s[j - 1])
    ensures MergeRight(u, i) == s
  {
    hide JoinNext;
    assert JoinNext(u, i, u[i].tag) == s;
  }

  lemma MergeUndoesSplit(lo: nat, hi: nat, s: seq<Segment>, i: nat, n: nat)
    requires Inv(lo, hi, s) && i < |s| && IsFree(s[i]) && 0 < n <= s[i].size
    ensures var t := SplitAt(s, i, s[i].base, n);
            i < |t| && t[i].base == s[i].base && t[i].tag.refs == 1 && ReleaseAt(t, i) == s
  {
    AloneInList(s, i);
    SplitFront(s, i, n);
    hide SplitAt, Tiles, Coalesced, MergeRight;
    var t := SplitAt(s, i, s[i].base, n);
    var u := t[i := DropRef(t[i])];
    if n < s[i].size {
      RejoinFront(s, i, n, u);
    } else {
      assert u == s;
      NothingToJoin(s, i);
    }
  }

  lemma NothingToJoin(s: seq<Segment>, i: nat)
    requires i < |s| && (i + 1 < |s| ==> !IsFree(s[i + 1]))
    ensures MergeRight(s, i) == s
  {
  }

  lemma SplitFront(s: seq<Segment>, i: nat, n: nat)
    requires i < |s| && IsFree(s[i]) && 0 < n <= s[i].size
    ensures var t := SplitAt(s, i, s[i].base, n);
            && |t| == (if n < s[i].size then |s| + 1 else |s|)
            && t[i] == Span(s[i].base, n, SegInfo(1, s[i].tag.cow))
            && (n < s[i].size ==> t[i + 1] == Span(s[i].base + n, s[i].size - n, SegInfo(0, false)))
            && (forall j :: 0 <= j < i ==> t[j] == s[j])
            && (forall j :: |t| - |s| + i < j < |t| ==> t[j] == s[j - (|t| - |s|)])
  {
    var p := Pieces(s[i], s[i].base, n, SegInfo(0, false), SegInfo(1, s[i].tag.cow));
    assert p[0] == Span(s[i].base, n, SegInfo(1, s[i].tag.cow));
    assert |p| == if n < s[i].size then 2 else 1;
  }

  /** Giving an allocated segment straight back restores the list exactly. */
  lemma AllocRelease(lo: nat, hi: nat, s: seq<Segment>, n: nat)
    requires Inv(lo, hi, s) && n > 0 && Alloc(s, n).1.Some?
    ensures Release(Alloc(s, n).0, Alloc(s, n).1.value.base) == s
  {
    hide ReleaseAt, SplitAt;
    var i := FirstFit(s, n, 0);
    var t := SplitAt(s, i, s[i].base, n);
    SplitKeepsInv(lo, hi, s, i, s[i].base, n);
    MergeUndoesSplit(lo, hi, s, i, n);
    TilesBaseUnique(lo, hi, t, i, IndexOf(t, s[i].base, 0));
  }
}
