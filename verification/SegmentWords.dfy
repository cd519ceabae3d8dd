// The segment list of the kernel in 32-bit words, against the same list counted in pages.

module SegmentWords {
  import opened Common
  import opened Tiling
  import opened ByteLists
  import opened Segments

  type RawSegment = Raw<SegInfo>

  predicate Idle(x: RawSegment) {
    Unused(x.tag)
  }

  function Taken(x: RawSegment): SegInfo {
    SegInfo(1, x.tag.cow)
  }

  const NONE := SegInfo(0, false)

  // ----- Allocating -----

  function FirstFitRaw(s: seq<RawSegment>, n: Word, i: nat): (k: nat)
    requires i <= |s|
    ensures i <= k <= |s|
    ensures k < |s| ==> Idle(s[k]) && s[k].pages >= n
    ensures forall j :: i <= j < k ==> !(Idle(s[j]) && s[j].pages >= n)
    decreases |s| - i
  {
    if i == |s| || (Idle(s[i]) && s[i].pages >= n) then i else FirstFitRaw(s, n, i + 1)
  }

  function AllocRaw(s: seq<RawSegment>, n: Word): (seq<RawSegment>, Option<RawSegment>) {
    if n == 0 then (s, None)
    else
      var i := FirstFitRaw(s, n, 0);
      if i == |s| then (s, None)
      else (Split(s, i, s[i].base, n, NONE, Taken(s[i])), Some(Raw(s[i].base, n, Taken(s[i]))))
  }

  lemma {:induction false} FirstFitAgrees(lo: nat, hi: nat, p: seq<Segment>, n: Word, i: nat)
    requires Tiles(lo, hi, p) && hi * PAGE < WORD && i <= |p|
    ensures FirstFitRaw(ToRaws(p), n, i) == FirstFit(p, n, i)
    decreases |p| - i
  {
    if i < |p| {
      EntryOfPages(lo, hi, p, i);
      FirstFitAgrees(lo, hi, p, n, i + 1);
    }
  }

  /** Allocating does what the list counted in pages does, for every size. */
  lemma AllocAgrees(lo: nat, hi: nat, p: seq<Segment>, n: Word)
    requires Tiles(lo, hi, p) && hi * PAGE < WORD
    ensures var (s', x) := AllocRaw(ToRaws(p), n);
            var (p', y) := Alloc(p, n);
            s' == ToRaws(p') && x == if y.None? then None else Some(ToRaw(y.value))
  {
    FirstFitAgrees(lo, hi, p, n, 0);
    hide Tiles, Split, SplitAt, ToRaw, FirstFit, FirstFitRaw;
    var i := FirstFit(p, n, 0);
    if n > 0 && i < |p| {
      SplitFront(lo, hi, p, i, n);
    }
  }

  lemma SplitFront(lo: nat, hi: nat, p: seq<Segment>, i: nat, n: Word)
    requires Tiles(lo, hi, p) && hi * PAGE < WORD && i < |p| && 0 < n <= p[i].size
    ensures var s := ToRaws(p);
            && Split(s, i, s[i].base, n, NONE, Taken(s[i])) == ToRaws(SplitAt(p, i, p[i].base, n))
            && ToRaw(Span(p[i].base, n, SegInfo(1, p[i].tag.cow))) == Raw(s[i].base, n, Taken(s[i]))
  {
    hide Tiles, Carve, Split;
    EntryOfPages(lo, hi, p, i);
    RangeFits(ToRaws(p)[i].base, n);
    SplitAgrees(lo, hi, p, i, ToRaws(p)[i].base, n, NONE, Taken(ToRaws(p)[i]));
    RawOf(Span(p[i].base, n, SegInfo(1, p[i].tag.cow)));
  }

  // ----- Reserving -----

  function FirstHoldingRaw(s: seq<RawSegment>, addr: Word, i: nat): (k: nat)
    requires i <= |s|
    ensures i <= k <= |s|
    ensures k < |s| ==> Idle(s[k]) && s[k].base <= addr <= s[k].End()
    ensures forall j :: i <= j < k ==> !(Idle(s[j]) && s[j].base <= addr <= s[j].End())
    decreases |s| - i
  {
    if i == |s| || (Idle(s[i]) && s[i].base <= addr <= s[i].End()) then i else FirstHoldingRaw(s, addr, i + 1)
  }

  function ReserveRaw(s: seq<RawSegment>, addr: Word, n: Word): (seq<RawSegment>, bool) {
    if n == 0 then (s, false)
    else
      var i := FirstHoldingRaw(s, addr, 0);
      if i == |s| || RangeEnd(addr, n) > s[i].End() then (s, false)
      else (Split(s, i, addr, n, NONE, Taken(s[i])), true)
  }

  /** A reservation that is granted keeps the partition if and only if it is sound; a refused
      one changes nothing. */
  lemma ReserveExact(lo: nat, hi: nat, s: seq<RawSegment>, addr: Word, n: Word)
    requires Partition(lo, hi, s) && hi * PAGE < WORD
    ensures var (s', ok) := ReserveRaw(s, addr, n);
            && (!ok ==> s' == s)
            && (ok ==> (Partition(lo, hi, s') <==> Sound(addr, n)))
  {
    var i := FirstHoldingRaw(s, addr, 0);
    if i < |s| && RangeEnd(addr, n) <= s[i].End() {
      SplitExact(lo, hi, s, i, addr, n, NONE, Taken(s[i]));
    }
  }

  lemma {:induction false} FirstHoldingAgrees(lo: nat, hi: nat, p: seq<Segment>, addr: Word, i: nat)
    requires Tiles(lo, hi, p) && hi * PAGE < WORD && i <= |p| && addr % PAGE == 0
    ensures FirstHoldingRaw(ToRaws(p), addr, i) == FirstHolding(p, addr / PAGE, i)
    decreases |p| - i
  {
    if i < |p| {
      EntryOfPages(lo, hi, p, i);
      FirstHoldingAgrees(lo, hi, p, addr, i + 1);
    }
  }

  lemma ReserveAgrees(lo: nat, hi: nat, p: seq<Segment>, addr: Word, n: Word)
    requires Tiles(lo, hi, p) && hi * PAGE < WORD && Sound(addr, n)
    ensures var (s', ok) := ReserveRaw(ToRaws(p), addr, n);
            var (p', ok') := Reserve(p, addr / PAGE, n);
            s' == ToRaws(p') && ok == ok'
  {
    FirstHoldingAgrees(lo, hi, p, addr, 0);
    RangeFits(addr, n);
    var i := FirstHolding(p, addr / PAGE, 0);
    if i < |p| {
      EntryOfPages(lo, hi, p, i);
      if RangeEnd(addr, n) <= ToRaws(p)[i].End() {
        SplitAgrees(lo, hi, p, i, addr, n, NONE, Taken(ToRaws(p)[i]));
      }
    }
  }

  /** A size that wraps the end of the range round is granted, and breaks the partition. */
  lemma WrappingSizeGranted()
    ensures var s := [Raw(0x10_0000, 0x1000, NONE)];
            && Partition(0x100, 0x1100, s)
            && var (s', ok) := ReserveRaw(s, 0x20_0000, 0xF_FF00);
               ok && !Partition(0x100, 0x1100, s')
  {
    var s := [Raw(0x10_0000, 0x1000, NONE)];
    TilesOne(Bytes(s[0]));
    assert AllBytes(s) == [Bytes(s[0])];
    assert FirstHoldingRaw(s, 0x20_0000, 0) == 0;
    ReserveExact(0x100, 0x1100, s, 0x20_0000, 0xF_FF00);
  }

  // ----- Releasing -----

  function MergeLeftRaw(s: seq<RawSegment>, i: nat): (r: (seq<RawSegment>, nat))
    requires i < |s|
    ensures r.1 < |r.0|
  {
    if i > 0 && Idle(s[i - 1]) && s[i - 1].End() == s[i].base then (Join(s, i - 1, s[i].tag), i - 1) else (s, i)
  }

  function MergeRightRaw(s: seq<RawSegment>, k: nat): seq<RawSegment>
    requires k < |s|
  {
    if k + 1 < |s| && Idle(s[k + 1]) && s[k].End() == s[k + 1].base then Join(s, k, s[k].tag) else s
  }

  /** One reference to segment `i` goes. */
  function DropRaw(s: seq<RawSegment>, i: nat): seq<RawSegment>
    requires i < |s| && !Idle(s[i])
  {
    var t := s[i := s[i].(tag := s[i].tag.(refs := s[i].tag.refs - 1))];
    if Idle(t[i]) then
      var (u, k) := MergeLeftRaw(t, i);
      MergeRightRaw(u, k)
    else t
  }

  function ReleaseRaw(s: seq<RawSegment>, addr: Word): seq<RawSegment> {
    var i := RawIndex(s, addr, 0);
    if i == |s| || Idle(s[i]) then s else DropRaw(s, i)
  }

  lemma MergeLeftAgrees(lo: nat, hi: nat, p: seq<Segment>, i: nat)
    requires Tiles(lo, hi, p) && hi * PAGE < WORD && i < |p|
    ensures var (q, k) := MergeLeft(p, i);
            MergeLeftRaw(ToRaws(p), i) == (ToRaws(q), k) && Tiles(lo, hi, q)
  {
    hide Tiles, Join, JoinNext, ToRaw;
    EntryOfPages(lo, hi, p, i);
    if i > 0 {
      EntryOfPages(lo, hi, p, i - 1);
      JoinAgrees(lo, hi, p, i - 1, p[i].tag);
      JoinTiles(lo, hi, p, i - 1, p[i].tag);
    }
  }

  lemma MergeRightAgrees(lo: nat, hi: nat, p: seq<Segment>, k: nat)
    requires Tiles(lo, hi, p) && hi * PAGE < WORD && k < |p|
    ensures MergeRightRaw(ToRaws(p), k) == ToRaws(MergeRight(p, k))
  {
    hide Tiles, Join, JoinNext, ToRaw;
    EntryOfPages(lo, hi, p, k);
    if k + 1 < |p| {
      EntryOfPages(lo, hi, p, k + 1);
      JoinAgrees(lo, hi, p, k, p[k].tag);
    }
  }

  lemma ReleaseAgrees(lo: nat, hi: nat, p: seq<Segment>, addr: Word)
    requires Tiles(lo, hi, p) && hi * PAGE < WORD
    ensures ReleaseRaw(ToRaws(p), addr) == ToRaws(if addr % PAGE == 0 then Release(p, addr / PAGE) else p)
  {
    IndexAgrees(lo, hi, p, addr, 0);
    hide Tiles, RawIndex, IndexOf, ReleaseAt, DropRaw;
    var i := RawIndex(ToRaws(p), addr, 0);
    if i < |p| && !IsFree(p[i]) {
      DropAgrees(lo, hi, p, i);
    }
  }

  lemma DropAgrees(lo: nat, hi: nat, p: seq<Segment>, i: nat)
    requires Tiles(lo, hi, p) && hi * PAGE < WORD && i < |p| && !IsFree(p[i])
    ensures DropRaw(ToRaws(p), i) == ToRaws(ReleaseAt(p, i))
  {
    hide Tiles, MergeLeft, MergeRight, MergeLeftRaw, MergeRightRaw;
    var q := p[i := DropRef(p[i])];
    RetagTiles(lo, hi, p, i, DropRef(p[i]).tag);
    assert ToRaws(q) == ToRaws(p)[i := ToRaws(p)[i].(tag := q[i].tag)];
    MergeLeftAgrees(lo, hi, q, i);
    MergeRightAgrees(lo, hi, MergeLeft(q, i).0, MergeLeft(q, i).1);
  }

  // ----- Runs -----

  datatype Request = Allocate(pages: Word) | ReserveAt(addr: Word, pages: Word) | GiveBack(addr: Word)

  function Step(s: seq<RawSegment>, r: Request): seq<RawSegment> {
    match r
    case Allocate(n) => AllocRaw(s, n).0
    case ReserveAt(a, n) => ReserveRaw(s, a, n).0
    case GiveBack(a) => ReleaseRaw(s, a)
  }

  function Run(s: seq<RawSegment>, rs: seq<Request>): seq<RawSegment>
    decreases |rs|
  {
    if rs == [] then s else Run(Step(s, rs[0]), rs[1..])
  }

  /** A partition of lo..hi in which no two neighbours are free. */
  ghost predicate InOrder(lo: nat, hi: nat, s: seq<RawSegment>) {
    Partition(lo, hi, s) && forall i, j :: 0 <= i && i + 1 == j && j < |s| ==> !(Idle(s[i]) && Idle(s[j]))
  }

  lemma InOrderPages(lo: nat, hi: nat, p: seq<Segment>)
    requires Inv(lo, hi, p) && hi * PAGE < WORD
    ensures InOrder(lo, hi, ToRaws(p))
  {
    PagesPartition(lo, hi, p);
  }

  lemma StepKeepsOrder(lo: nat, hi: nat, s: seq<RawSegment>, r: Request)
    requires InOrder(lo, hi, s) && hi * PAGE < WORD
    requires r.ReserveAt? && r.pages > 0 ==> Sound(r.addr, r.pages)
    ensures InOrder(lo, hi, Step(s, r))
  {
    PartitionPages(lo, hi, s);
    var p := ToPages(s);
    assert Inv(lo, hi, p);
    hide Tiles, Partition, InOrder, Alloc, Reserve, Release;
    match r
    case Allocate(n) =>
      if n > 0 {
        AllocAgrees(lo, hi, p, n);
        AllocCorrect(lo, hi, p, n);
        InOrderPages(lo, hi, Alloc(p, n).0);
      }
    case ReserveAt(a, n) =>
      if n > 0 {
        ReserveAgrees(lo, hi, p, a, n);
        ReserveCorrect(lo, hi, p, a / PAGE, n);
        InOrderPages(lo, hi, Reserve(p, a / PAGE, n).0);
      }
    case GiveBack(a) =>
      ReleaseAgrees(lo, hi, p, a);
      ReleaseCorrect(lo, hi, p, a / PAGE);
      if a % PAGE == 0 {
        InOrderPages(lo, hi, Release(p, a / PAGE));
      }
  }

  /** Every run of allocations, releases and sound reservations keeps a partition without two
      free neighbours. */
  lemma {:induction false} RunKeepsOrder(lo: nat, hi: nat, s: seq<RawSegment>, rs: seq<Request>)
    requires InOrder(lo, hi, s) && hi * PAGE < WORD
    requires forall i :: 0 <= i < |rs| && rs[i].ReserveAt? && rs[i].pages > 0 ==> Sound(rs[i].addr, rs[i].pages)
    ensures InOrder(lo, hi, Run(s, rs))
    decreases |rs|
  {
    if rs != [] {
      StepKeepsOrder(lo, hi, s, rs[0]);
      assert forall i :: 0 <= i < |rs[1..]| ==> rs[1..][i] == rs[i + 1];
      RunKeepsOrder(lo, hi, Step(s, rs[0]), rs[1..]);
    }
  }

  lemma OneInOrder(base: Word, pages: Word)
    requires base % PAGE == 0 && pages > 0
    ensures InOrder(base / PAGE, base / PAGE + pages, [Raw(base, pages, NONE)])
  {
    var s := [Raw(base, pages, NONE)];
    TilesOne(Bytes(s[0]));
    assert AllBytes(s) == [Bytes(s[0])];
  }

  /** From one free segment, once nothing is in use the one free segment is back. */
  lemma RunFromOne(base: Word, pages: Word, rs: seq<Request>)
    requires base % PAGE == 0 && pages > 0 && base + pages * PAGE < WORD
    requires forall i :: 0 <= i < |rs| && rs[i].ReserveAt? && rs[i].pages > 0 ==> Sound(rs[i].addr, rs[i].pages)
    ensures var s := Run([Raw(base, pages, NONE)], rs);
            && InOrder(base / PAGE, base / PAGE + pages, s)
            && ((forall x :: x in s ==> Idle(x)) ==> |s| == 1 && s[0].base == base && s[0].pages == pages)
  {
    hide Run, InOrder;
    var lo, s0 := base / PAGE, [Raw(base, pages, NONE)];
    OneInOrder(base, pages);
    RunKeepsOrder(lo, lo + pages, s0, rs);
    var s := Run(s0, rs);
    if forall x :: x in s ==> Idle(x) {
      AllIdle(lo, lo + pages, s);
    }
  }

  lemma AllIdle(lo: nat, hi: nat, s: seq<RawSegment>)
    requires InOrder(lo, hi, s) && lo < hi && hi * PAGE < WORD && forall x :: x in s ==> Idle(x)
    ensures |s| == 1 && s[0].base == lo * PAGE && s[0].pages == hi - lo
  {
    PartitionPages(lo, hi, s);
    var p := ToPages(s);
    assert Coalesced(Unused, p);
    forall k | 0 <= k < |p| ensures Unused(p[k].tag) {
      assert s[k] in s;
    }
    assert Busy(Unused, p) == {};
    NothingBusy(Unused, lo, hi, p);
    EntryOfPages(lo, hi, p, 0);
  }

  // ----- The table the kernel keeps -----

  /** The global list of segments, searched from its head and changed in place. */
  class SegmentTable {
    var segs: seq<RawSegment>

    /** One free segment, as the boot loader reports it. */
    constructor (base: Word, pages: Word)
      requires base % PAGE == 0 && pages > 0 && base + pages * PAGE < WORD
      ensures segs == [Raw(base, pages, NONE)]
      ensures InOrder(base / PAGE, base / PAGE + pages, segs)
    {
      segs := [Raw(base, pages, NONE)];
      new;
      OneInOrder(base, pages);
    }

    method AllocPages(n: Word) returns (r: Option<RawSegment>)
      modifies this
      ensures (segs, r) == AllocRaw(old(segs), n)
    {
      if n == 0 { return None; }
      var i := 0;
      while i < |segs|
        invariant i <= |segs| && segs == old(segs)
        invariant FirstFitRaw(segs, n, 0) == FirstFitRaw(segs, n, i)
      {
        var x := segs[i];
        if x.tag.refs == 0 && x.pages >= n {
          segs := Split(segs, i, x.base, n, NONE, Taken(x));
          return Some(Raw(x.base, n, Taken(x)));
        }
        i := i + 1;
      }
      r := None;
    }

    method ReservePages(addr: Word, n: Word) returns (ok: bool)
      modifies this
      ensures (segs, ok) == ReserveRaw(old(segs), addr, n)
    {
      if n == 0 { return false; }
      var i := 0;
      while i < |segs|
        invariant i <= |segs| && segs == old(segs)
        invariant FirstHoldingRaw(segs, addr, 0) == FirstHoldingRaw(segs, addr, i)
      {
        var x := segs[i];
        if x.tag.refs == 0 && addr >= x.base && addr <= x.End() {
          if RangeEnd(addr, n) > x.End() { return false; }
          segs := Split(segs, i, addr, n, NONE, Taken(x));
          return true;
        }
        i := i + 1;
      }
      ok := false;
    }

    method ReleasePages(addr: Word)
      modifies this
      ensures segs == ReleaseRaw(old(segs), addr)
    {
      hide MergeLeftRaw, MergeRightRaw;
      var i := 0;
      while i < |segs|
        invariant i <= |segs| && segs == old(segs)
        invariant RawIndex(segs, addr, 0) == RawIndex(segs, addr, i)
      {
        if segs[i].base == addr {
          if segs[i].tag.refs == 0 { return; }
          segs := segs[i := segs[i].(tag := segs[i].tag.(refs := segs[i].tag.refs - 1))];
          if segs[i].tag.refs == 0 {
            var (u, k) := MergeLeftRaw(segs, i);
            segs := MergeRightRaw(u, k);
          }
          return;
        }
        i := i + 1;
      }
    }
  }
}
