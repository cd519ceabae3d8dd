// The region list of an address space as the kernel keeps it, in 32-bit words, against the
// same list counted in pages.

module RegionWords {
  import opened Common
  import opened Tiling
  import opened ByteLists
  import Pages = Regions

  type RawRegion = Raw<bool>

  // ----- Reserving -----

  predicate Suits(x: RawRegion, addr: Word, n: Word) {
    !x.tag && (if addr == 0 then x.pages >= n else x.base <= addr < x.End())
  }

  function FirstSuiting(s: seq<RawRegion>, addr: Word, n: Word, i: nat): (k: nat)
    requires i <= |s|
    ensures i <= k <= |s|
    ensures k < |s| ==> Suits(s[k], addr, n)
    ensures forall j :: i <= j < k ==> !Suits(s[j], addr, n)
    decreases |s| - i
  {
    if i == |s| || Suits(s[i], addr, n) then i else FirstSuiting(s, addr, n, i + 1)
  }

  /** The list after a request and the address returned, 0 when it is refused. */
  function Reserve(s: seq<RawRegion>, addr: Word, n: Word): (seq<RawRegion>, Word) {
    var i := FirstSuiting(s, addr, n, 0);
    if i == |s| then (s, 0)
    else if addr == 0 then (Split(s, i, s[i].base, n, false, true), s[i].base)
    else if RangeEnd(addr, n) > s[i].End() then (s, 0)
    else (Split(s, i, addr, n, false, true), addr)
  }

  /** What a caller has to see to; any place will do when `addr` is 0. */
  predicate SoundRequest(addr: Word, n: Word) {
    n > 0 && (addr == 0 || Sound(addr, n))
  }

  /** A request that is granted keeps the partition if and only if it is sound, for every
      list and every request; a refused one changes nothing. */
  lemma ReserveExact(lo: nat, hi: nat, s: seq<RawRegion>, addr: Word, n: Word)
    requires Partition(lo, hi, s) && lo > 0 && hi * PAGE < WORD
    ensures var (s', at) := Reserve(s, addr, n);
            && (at == 0 ==> s' == s)
            && (at != 0 ==> (Partition(lo, hi, s') <==> SoundRequest(addr, n)))
  {
    var i := FirstSuiting(s, addr, n, 0);
    if i < |s| {
      PartitionPages(lo, hi, s);
      var p := ToPages(s);
      EntryOfPages(lo, hi, p, i);
      if addr == 0 {
        assert RangeEnd(s[i].base, n) <= s[i].End();
        SplitExact(lo, hi, s, i, s[i].base, n, false, true);
      } else if RangeEnd(addr, n) <= s[i].End() {
        SplitExact(lo, hi, s, i, addr, n, false, true);
      }
    }
  }

  /** A sound request does what the list counted in pages does. */
  lemma ReserveAgrees(lo: nat, hi: nat, p: seq<Pages.Region>, addr: Word, n: Word)
    requires Tiles(lo, hi, p) && lo > 0 && hi * PAGE < WORD && SoundRequest(addr, n)
    ensures var (s', at) := Reserve(ToRaws(p), addr, n);
            var (p', r) := Pages.Reserve(p, addr / PAGE, n);
            && s' == ToRaws(p') && at % PAGE == 0
            && (at == 0 <==> r.None?) && (r.Some? ==> at == r.value * PAGE)
  {
    hide Tiles, Reserve, Pages.Reserve;
    SearchAgrees(lo, hi, p, addr, n);
    var i := FirstSuiting(ToRaws(p), addr, n, 0);
    if i < |p| {
      FoundAgrees(lo, hi, p, addr, n, i);
    } else {
      NothingSuits(p, addr, n);
    }
  }

  lemma SearchAgrees(lo: nat, hi: nat, p: seq<Pages.Region>, addr: Word, n: Word)
    requires Tiles(lo, hi, p) && hi * PAGE < WORD && SoundRequest(addr, n)
    ensures FirstSuiting(ToRaws(p), addr, n, 0) == Pages.FirstSuiting(p, addr / PAGE, n, 0)
  {
    forall j | 0 <= j < |p| ensures Suits(ToRaws(p)[j], addr, n) <==> Pages.Suits(p[j], addr / PAGE, n) {
      SuitsAgree(lo, hi, p, addr, n, j);
    }
    FirstAgrees(ToRaws(p), addr, p, addr / PAGE, n, 0);
  }

  lemma NothingSuits(p: seq<Pages.Region>, addr: Word, n: Word)
    requires FirstSuiting(ToRaws(p), addr, n, 0) == |p| == Pages.FirstSuiting(p, addr / PAGE, n, 0)
    ensures Reserve(ToRaws(p), addr, n) == (ToRaws(p), 0) && Pages.Reserve(p, addr / PAGE, n) == (p, None)
  {
  }

  lemma FoundAgrees(lo: nat, hi: nat, p: seq<Pages.Region>, addr: Word, n: Word, i: nat)
    requires Tiles(lo, hi, p) && lo > 0 && hi * PAGE < WORD && SoundRequest(addr, n) && i < |p|
    requires FirstSuiting(ToRaws(p), addr, n, 0) == i == Pages.FirstSuiting(p, addr / PAGE, n, 0)
    ensures var (s', at) := Reserve(ToRaws(p), addr, n);
            var (p', r) := Pages.Reserve(p, addr / PAGE, n);
            && s' == ToRaws(p') && at % PAGE == 0
            && (at == 0 <==> r.None?) && (r.Some? ==> at == r.value * PAGE)
  {
    hide Tiles, Split, Pages.SplitAt, ToRaw, FirstSuiting, Pages.FirstSuiting, RangeEnd;
    EntryOfPages(lo, hi, p, i);
    if addr == 0 {
      GrantAgrees(lo, hi, p, p[i].base * PAGE, n, i);
    } else {
      GrantAgrees(lo, hi, p, addr, n, i);
    }
  }

  lemma SuitsAgree(lo: nat, hi: nat, p: seq<Pages.Region>, addr: Word, n: Word, j: nat)
    requires Tiles(lo, hi, p) && hi * PAGE < WORD && SoundRequest(addr, n) && j < |p|
    ensures Suits(ToRaws(p)[j], addr, n) <==> Pages.Suits(p[j], addr / PAGE, n)
  {
    hide Tiles;
    EntryOfPages(lo, hi, p, j);
  }

  /** The test of the range and the split, at an address in region `i`. */
  lemma GrantAgrees(lo: nat, hi: nat, p: seq<Pages.Region>, addr: Word, n: Word, i: nat)
    requires Tiles(lo, hi, p) && hi * PAGE < WORD && i < |p| && p[i].base * PAGE <= addr < p[i].End() * PAGE
    requires n > 0 && addr % PAGE == 0
    requires Sound(addr, n) || (addr == p[i].base * PAGE && n <= p[i].size)
    ensures RangeEnd(addr, n) > ToRaws(p)[i].End() <==> addr / PAGE + n > p[i].End()
    ensures addr / PAGE + n <= p[i].End() ==>
      && p[i].base <= addr / PAGE
      && Split(ToRaws(p), i, addr, n, false, true) == ToRaws(Pages.SplitAt(p, i, addr / PAGE, n))
  {
    hide Tiles, Split, Carve;
    EntryOfPages(lo, hi, p, i);
    RangeFits(addr, n);
    if addr / PAGE + n <= p[i].End() {
      SplitAgrees(lo, hi, p, i, addr, n, false, true);
    }
  }

  lemma {:induction false} FirstAgrees(s: seq<RawRegion>, addr: Word, p: seq<Pages.Region>, at: nat, n: Word, i: nat)
    requires |s| == |p| && i <= |s|
    requires forall j :: 0 <= j < |p| ==> (Suits(s[j], addr, n) <==> Pages.Suits(p[j], at, n))
    ensures FirstSuiting(s, addr, n, i) == Pages.FirstSuiting(p, at, n, i)
    decreases |s| - i
  {
    if i < |s| && !Suits(s[i], addr, n) {
      FirstAgrees(s, addr, p, at, n, i + 1);
    }
  }

  /** The user half of a fresh address space. */
  const FRESH: seq<RawRegion> := [Raw(0x1000, 0xBFFFF, false)]

  lemma FreshIsPartition()
    ensures Partition(1, 0xC0000, FRESH)
  {
    TilesOne(Bytes(FRESH[0]));
    assert AllBytes(FRESH) == [Bytes(FRESH[0])];
  }

  /** A size that wraps the end of the range round is granted, and breaks the partition. */
  lemma WrappingSizeGranted()
    ensures Partition(1, 0xC0000, FRESH)
    ensures var (s', at) := Reserve(FRESH, 0x4000_0000, 0xD0000);
            at == 0x4000_0000 && !Partition(1, 0xC0000, s')
  {
    FreshIsPartition();
    assert FirstSuiting(FRESH, 0x4000_0000, 0xD0000, 0) == 0;
    ReserveExact(1, 0xC0000, FRESH, 0x4000_0000, 0xD0000);
  }

  /** So is an address inside a page: the rest of that page belongs to no region any more. */
  lemma UnalignedAddressGranted()
    ensures Partition(1, 0xC0000, FRESH)
    ensures var (s', at) := Reserve(FRESH, 0x2800, 1);
            && at == 0x2800 && !Partition(1, 0xC0000, s')
            && (forall x :: x in s' ==> !Bytes(x).Covers(0x2000))
  {
    FreshIsPartition();
    assert FirstSuiting(FRESH, 0x2800, 1, 0) == 0;
    ReserveExact(1, 0xC0000, FRESH, 0x2800, 1);
    var s' := Reserve(FRESH, 0x2800, 1).0;
    assert s' == [Raw(0x1000, 1, false), Raw(0x2800, 1, true), Raw(0x3800, 0xBFFFF - 2, false)];
  }

  // ----- Releasing -----

  function MergeLeft(s: seq<RawRegion>, i: nat): (r: (seq<RawRegion>, nat))
    requires i < |s|
    ensures r.1 < |r.0|
  {
    if i > 0 && !s[i - 1].tag && RangeEnd(s[i - 1].base, s[i].pages) == s[i].base then (Join(s, i - 1, s[i].tag), i - 1)
    else (s, i)
  }

  function MergeRight(s: seq<RawRegion>, k: nat): seq<RawRegion>
    requires k < |s|
  {
    if k + 1 < |s| && !s[k + 1].tag && s[k].End() == s[k + 1].base then Join(s, k, s[k].tag) else s
  }

  function MergeAt(s: seq<RawRegion>, i: nat): seq<RawRegion>
    requires i < |s|
  {
    var (t, k) := MergeLeft(s, i);
    MergeRight(t, k)
  }

  function Release(s: seq<RawRegion>, addr: Word): seq<RawRegion> {
    var i := RawIndex(s, addr, 0);
    if i == |s| then s else MergeAt(s[i := s[i].(tag := false)], i)
  }

  lemma MergeLeftAgrees(lo: nat, hi: nat, p: seq<Pages.Region>, i: nat)
    requires Tiles(lo, hi, p) && hi * PAGE < WORD && i < |p|
    ensures var (q, k) := Pages.MergeLeft(p, i);
            MergeLeft(ToRaws(p), i) == (ToRaws(q), k) && Tiles(lo, hi, q)
  {
    hide Tiles, Join, JoinNext, RangeEnd, ToRaw;
    EntryOfPages(lo, hi, p, i);
    if i > 0 {
      EntryOfPages(lo, hi, p, i - 1);
      TilesAt(lo, hi, p, i - 1);
      RangeFits(ToRaws(p)[i - 1].base, ToRaws(p)[i].pages);
      JoinAgrees(lo, hi, p, i - 1, p[i].tag);
      JoinTiles(lo, hi, p, i - 1, p[i].tag);
    }
  }

  lemma MergeRightAgrees(lo: nat, hi: nat, p: seq<Pages.Region>, k: nat)
    requires Tiles(lo, hi, p) && hi * PAGE < WORD && k < |p|
    ensures MergeRight(ToRaws(p), k) == ToRaws(Pages.MergeRight(p, k))
  {
    hide Tiles, Join, JoinNext;
    EntryOfPages(lo, hi, p, k);
    if k + 1 < |p| {
      EntryOfPages(lo, hi, p, k + 1);
      JoinAgrees(lo, hi, p, k, p[k].tag);
    }
  }

  /** A release does what the list counted in pages does, for every address. */
  lemma ReleaseAgrees(lo: nat, hi: nat, p: seq<Pages.Region>, addr: Word)
    requires Tiles(lo, hi, p) && hi * PAGE < WORD
    ensures Release(ToRaws(p), addr) == ToRaws(if addr % PAGE == 0 then Pages.Release(p, addr / PAGE) else p)
  {
    IndexAgrees(lo, hi, p, addr, 0);
    var i := RawIndex(ToRaws(p), addr, 0);
    if i < |p| {
      var q := p[i := p[i].(tag := false)];
      RetagTiles(lo, hi, p, i, false);
      assert ToRaws(q) == ToRaws(p)[i := ToRaws(p)[i].(tag := false)];
      MergeLeftAgrees(lo, hi, q, i);
      MergeRightAgrees(lo, hi, Pages.MergeLeft(q, i).0, Pages.MergeLeft(q, i).1);
    }
  }

  // ----- Runs -----

  datatype Request = ReserveAt(addr: Word, pages: Word) | GiveBack(addr: Word)

  function Step(s: seq<RawRegion>, r: Request): seq<RawRegion> {
    match r
    case ReserveAt(a, n) => Reserve(s, a, n).0
    case GiveBack(a) => Release(s, a)
  }

  function Run(s: seq<RawRegion>, rs: seq<Request>): seq<RawRegion>
    decreases |rs|
  {
    if rs == [] then s else Run(Step(s, rs[0]), rs[1..])
  }

  predicate AllSound(rs: seq<Request>) {
    forall i :: 0 <= i < |rs| && rs[i].ReserveAt? ==> SoundRequest(rs[i].addr, rs[i].pages)
  }

  lemma StepKeepsPartition(lo: nat, hi: nat, s: seq<RawRegion>, r: Request)
    requires Partition(lo, hi, s) && lo > 0 && hi * PAGE < WORD
    requires r.ReserveAt? ==> SoundRequest(r.addr, r.pages)
    ensures Partition(lo, hi, Step(s, r))
  {
    match r
    case ReserveAt(a, n) => ReserveExact(lo, hi, s, a, n);
    case GiveBack(a) =>
      PartitionPages(lo, hi, s);
      var p := ToPages(s);
      ReleaseAgrees(lo, hi, p, a);
      if a % PAGE == 0 {
        Pages.ReleaseCorrect(lo, hi, p, a / PAGE);
        PagesPartition(lo, hi, Pages.Release(p, a / PAGE));
      }
  }

  /** Every run of sound reservations and of any releases keeps the partition. */
  lemma {:induction false} RunKeepsPartition(lo: nat, hi: nat, s: seq<RawRegion>, rs: seq<Request>)
    requires Partition(lo, hi, s) && lo > 0 && hi * PAGE < WORD && AllSound(rs)
    ensures Partition(lo, hi, Run(s, rs))
    decreases |rs|
  {
    if rs != [] {
      StepKeepsPartition(lo, hi, s, rs[0]);
      assert forall i :: 0 <= i < |rs[1..]| ==> rs[1..][i] == rs[i + 1];
      RunKeepsPartition(lo, hi, Step(s, rs[0]), rs[1..]);
    }
  }

  /** The first unsound request that is granted is where the partition ends. */
  lemma UnsoundRequestBreaks(lo: nat, hi: nat, s: seq<RawRegion>, rs: seq<Request>, addr: Word, n: Word)
    requires Partition(lo, hi, s) && lo > 0 && hi * PAGE < WORD && AllSound(rs)
    ensures var t := Run(s, rs);
            Reserve(t, addr, n).1 != 0 ==> (Partition(lo, hi, Step(t, ReserveAt(addr, n))) <==> SoundRequest(addr, n))
  {
    RunKeepsPartition(lo, hi, s, rs);
    ReserveExact(lo, hi, Run(s, rs), addr, n);
  }

  const FRAGMENTED: seq<RawRegion> :=
    [Raw(0x1000, 1, false), Raw(0x2000, 2, false), Raw(0x4000, 6, true), Raw(0xA000, 0xBFFF6, false)]

  lemma FragmentedReachable()
    ensures Run(FRESH, [ReserveAt(0x2000, 2), ReserveAt(0x4000, 6), GiveBack(0x2000)]) == FRAGMENTED
  {
    var rs := [ReserveAt(0x2000, 2), ReserveAt(0x4000, 6), GiveBack(0x2000)];
    var s1 := [Raw(0x1000, 1, false), Raw(0x2000, 2, true), Raw(0x4000, 0xBFFFC, false)];
    var s2 := FRAGMENTED[1 := Raw(0x2000, 2, true)];
    assert Step(FRESH, rs[0]) == s1 by {
      assert FirstSuiting(FRESH, 0x2000, 2, 0) == 0;
    }
    assert Step(s1, rs[1]) == s2 by {
      assert FirstSuiting(s1, 0x4000, 6, 0) == 2;
    }
    assert Step(s2, rs[2]) == FRAGMENTED by {
      assert RawIndex(s2, 0x2000, 0) == 1;
      assert s2[1 := s2[1].(tag := false)] == FRAGMENTED;
    }
    assert rs[1..] == [rs[1], rs[2]] && rs[1..][1..] == [rs[2]] && rs[1..][1..][1..] == [];
  }

  /** After a release free regions can stay apart, and a range that is wholly free is refused. */
  lemma FreeRangeRefused()
    ensures var s := Run(FRESH, [ReserveAt(0x2000, 2), ReserveAt(0x4000, 6), GiveBack(0x2000)]);
            && Partition(1, 0xC0000, s)
            && (forall q :: 0x1000 <= q < 0x4000 ==> UnitFree(Pages.Unmapped, AllBytes(s), q))
            && Reserve(s, 0x1000, 3).1 == 0
  {
    hide Run, Partition;
    FreshIsPartition();
    FragmentedReachable();
    RunKeepsPartition(1, 0xC0000, FRESH, [ReserveAt(0x2000, 2), ReserveAt(0x4000, 6), GiveBack(0x2000)]);
    forall q | 0x1000 <= q < 0x4000 ensures UnitFree(Pages.Unmapped, AllBytes(FRAGMENTED), q) {
      var k := if q < 0x2000 then 0 else 1;
      assert Pages.Unmapped(AllBytes(FRAGMENTED)[k].tag) && AllBytes(FRAGMENTED)[k].Covers(q);
    }
    assert FirstSuiting(FRAGMENTED, 0x1000, 3, 0) == 0;
  }

  // ----- The list an address space keeps -----

  class RegionList {
    var regions: seq<RawRegion>

    constructor (base: Word, pages: Word)
      requires base % PAGE == 0 && pages > 0 && base + pages * PAGE < WORD
      ensures regions == [Raw(base, pages, false)]
      ensures Partition(base / PAGE, base / PAGE + pages, regions)
    {
      regions := [Raw(base, pages, false)];
      new;
      TilesOne(Bytes(regions[0]));
      assert AllBytes(regions) == [Bytes(regions[0])];
    }

    method ReserveRange(addr: Word, n: Word) returns (at: Word)
      modifies this
      ensures (regions, at) == Reserve(old(regions), addr, n)
    {
      var last := RangeEnd(addr, n);
      var i := 0;
      while i < |regions|
        invariant i <= |regions| && regions == old(regions)
        invariant FirstSuiting(regions, addr, n, 0) == FirstSuiting(regions, addr, n, i)
      {
        var x := regions[i];
        if !x.tag {
          if addr == 0 {
            if x.pages >= n {
              regions := Split(regions, i, x.base, n, false, true);
              return x.base;
            }
          } else if addr >= x.base && addr < x.End() {
            if last > x.End() { return 0; }
            regions := Split(regions, i, addr, n, false, true);
            return addr;
          }
        }
        i := i + 1;
      }
      at := 0;
    }

    method ReleaseRange(addr: Word)
      modifies this
      ensures regions == Release(old(regions), addr)
    {
      var i := 0;
      while i < |regions|
        invariant i <= |regions| && regions == old(regions)
        invariant RawIndex(regions, addr, 0) == RawIndex(regions, addr, i)
      {
        if regions[i].base == addr {
          regions := MergeAt(regions[i := regions[i].(tag := false)], i);
          return;
        }
        i := i + 1;
      }
    }
  }
}
