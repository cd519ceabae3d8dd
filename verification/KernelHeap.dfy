// The kernel heap as a list: blocks with a header in front of each, laid end to end, split on
// allocation and joined with free neighbours when freed.

module KernelHeap {
  import opened Common
  import opened Tiling

  /** Bytes of bookkeeping in front of every block: pointer, size, flag and two list links
      on a 32-bit machine. */
  const HEADER: nat := 20

  /** A block with its header; the tag says whether it is free. */
  type Block = Span<bool>

  predicate Free(free: bool) {
    free
  }

  function Used(s: seq<Block>): set<Block> {
    Busy(Free, s)
  }

  predicate WellSized(s: seq<Block>) {
    forall x :: x in s ==> x.size >= HEADER
  }

  /** What every operation keeps: headers and blocks tile the heap, free neighbours are
      joined. */
  ghost predicate Inv(lo: nat, hi: nat, s: seq<Block>) {
    Tiles(lo, hi, s) && Coalesced(Free, s) && WellSized(s)
  }

  // ----- kmalloc -----

  /** The first free block from `i` on with `n` bytes behind its header, or |s|. */
  function FirstFit(s: seq<Block>, n: nat, i: nat): (k: nat)
    requires i <= |s|
    ensures i <= k <= |s|
    ensures k < |s| ==> s[k].tag && s[k].size >= HEADER + n
    ensures forall j :: i <= j < k ==> !(s[j].tag && s[j].size >= HEADER + n)
    decreases |s| - i
  {
    if i == |s| || (s[i].tag && s[i].size >= HEADER + n) then i else FirstFit(s, n, i + 1)
  }

  /** The block in use, cut to `n` bytes if more than a header would be left over. */
  function Pieces(x: Block, n: nat): (r: seq<Block>)
    requires x.size >= HEADER + n
    ensures 1 <= |r| <= 2 && r[0].base == x.base && !r[0].tag && r[0].size >= HEADER + n
    ensures |r| == 2 ==> r[1].tag
  {
    if x.size - HEADER > n + HEADER then
      [Span(x.base, HEADER + n, false), Span(x.base + HEADER + n, x.size - HEADER - n, true)]
    else [Span(x.base, x.size, false)]
  }

  function SplitAt(s: seq<Block>, i: nat, n: nat): seq<Block>
    requires i < |s| && s[i].size >= HEADER + n
  {
    Replace(s, i, i + 1, Pieces(s[i], n))
  }

  /** Returns the address behind the header, or nothing when the source panics. */
  function Malloc(s: seq<Block>, n: nat): (r: (seq<Block>, Option<nat>)) {
    var i := FirstFit(s, n, 0);
    if i == |s| then (s, None) else (SplitAt(s, i, n), Some(s[i].base + HEADER))
  }

  /** The block that an allocation of `n` bytes brings into use. */
  function NewBlock(s: seq<Block>, n: nat): Block
    requires Malloc(s, n).1.Some?
  {
    Pieces(s[FirstFit(s, n, 0)], n)[0]
  }

  lemma SplitTiles(lo: nat, hi: nat, s: seq<Block>, i: nat, n: nat)
    requires Tiles(lo, hi, s) && i < |s| && s[i].size >= HEADER + n
    ensures Tiles(lo, hi, SplitAt(s, i, n))
  {
    var p := Pieces(s[i], n);
    TilesAt(lo, hi, s, i);
    TilesOne(p[0]);
    if |p| == 2 {
      TilesOne(p[1]);
      TilesConcat(s[i].base, p[0].End(), s[i].End(), [p[0]], [p[1]]);
      assert [p[0]] + [p[1]] == p;
    }
    ReplaceTiles(lo, hi, s, i, i + 1, p);
  }

  lemma SplitCoalesced(s: seq<Block>, i: nat, n: nat)
    requires Coalesced(Free, s) && i < |s| && s[i].tag && s[i].size >= HEADER + n
    ensures Coalesced(Free, SplitAt(s, i, n))
  {
    var p := Pieces(s[i], n);
    var r := SplitAt(s, i, n);
    var d := |p| - 1;
    forall a, b | 0 <= a && a + 1 == b && b < |r| ensures !(Free(r[a].tag) && Free(r[b].tag)) {
      if b <= i {
      } else if a < i + d {
        assert r[a] == p[a - i];
      } else if a == i + d {
        assert r[b] == s[i + 1];
      } else {
        assert r[a] == s[a - d] && r[b] == s[b - d];
      }
    }
  }

  lemma SplitUsed(s: seq<Block>, i: nat, n: nat)
    requires i < |s| && s[i].tag && s[i].size >= HEADER + n
    ensures Used(SplitAt(s, i, n)) == Used(s) + {Pieces(s[i], n)[0]}
  {
    var p := Pieces(s[i], n);
    BusyReplace(Free, s, i, i + 1, p);
    assert s[i..i + 1] == [s[i]];
    assert Used(p) == {p[0]};
  }

  /** There are nowhere `bytes` free bytes in a row. */
  ghost predicate NoRoom(s: seq<Block>, bytes: nat) {
    forall p: nat :: !AllFree(Free, s, p, bytes)
  }

  /** Allocation keeps the invariant and adds exactly one block in use, made of free bytes;
      it fails exactly when no free bytes in a row can hold header and block. */
  lemma MallocCorrect(lo: nat, hi: nat, s: seq<Block>, n: nat)
    requires Inv(lo, hi, s)
    ensures var (s', r) := Malloc(s, n);
            && Inv(lo, hi, s')
            && (r.Some? ==> var b := NewBlock(s, n);
                            && r.value == b.base + HEADER && b.size >= HEADER + n && !b.tag
                            && Used(s') == Used(s) + {b}
                            && AllFree(Free, s, b.base, b.size))
            && (r.None? ==> s' == s)
            && (r.None? <==> NoRoom(s, HEADER + n))
  {
    hide Tiles, Coalesced, WellSized, SplitAt, AllFree;
    if FirstFit(s, n, 0) < |s| {
      SplitKeepsInv(lo, hi, s, FirstFit(s, n, 0), n);
      FoundIsFree(s, FirstFit(s, n, 0), n);
    } else {
      NoFitNoRoom(lo, hi, s, n);
    }
  }

  lemma SplitKeepsInv(lo: nat, hi: nat, s: seq<Block>, i: nat, n: nat)
    requires Inv(lo, hi, s) && i < |s| && s[i].tag && s[i].size >= HEADER + n
    ensures Inv(lo, hi, SplitAt(s, i, n)) && Used(SplitAt(s, i, n)) == Used(s) + {Pieces(s[i], n)[0]}
  {
    hide Tiles, Coalesced, Busy;
    SplitTiles(lo, hi, s, i, n);
    SplitCoalesced(s, i, n);
    SplitUsed(s, i, n);
    forall x | x in SplitAt(s, i, n) ensures x.size >= HEADER {
      assert x in s[..i] || x in Pieces(s[i], n) || x in s[i + 1..];
    }
  }

  lemma FoundIsFree(s: seq<Block>, i: nat, n: nat)
    requires i < |s| && s[i].tag && s[i].size >= HEADER + n
    ensures var b := Pieces(s[i], n)[0];
            AllFree(Free, s, b.base, b.size) && !NoRoom(s, HEADER + n)
  {
    forall q | s[i].base <= q < s[i].End() ensures UnitFree(Free, s, q) {
      assert Free(s[i].tag) && s[i].Covers(q);
    }
    assert AllFree(Free, s, s[i].base, HEADER + n);
  }

  lemma NoFitNoRoom(lo: nat, hi: nat, s: seq<Block>, n: nat)
    requires Inv(lo, hi, s) && FirstFit(s, n, 0) == |s|
    ensures NoRoom(s, HEADER + n)
  {
    var bytes := HEADER + n;
    forall p: nat | AllFree(Free, s, p, bytes) ensures false {
      var k := FreeRunInOneSpan(Free, lo, hi, s, p, bytes);
    }
  }

  /** The lowest free bytes that suffice are taken, and at most a header more than asked for. */
  lemma MallocTight(lo: nat, hi: nat, s: seq<Block>, n: nat, p: nat)
    requires Inv(lo, hi, s) && AllFree(Free, s, p, HEADER + n)
    ensures Malloc(s, n).1.Some? && NewBlock(s, n).base <= p && NewBlock(s, n).size <= HEADER + n + HEADER
  {
    hide AllFree;
    var k := FreeRunInOneSpan(Free, lo, hi, s, p, HEADER + n);
    var i := FirstFit(s, n, 0);
    if i < k { TilesOrdered(lo, hi, s, i, k); }
  }

  // ----- kfree -----

  function MergeNext(s: seq<Block>, i: nat): (r: seq<Block>)
    requires i < |s|
    ensures i < |r|
  {
    if i + 1 < |s| && s[i + 1].tag && s[i].End() == s[i + 1].base then JoinNext(s, i, s[i].tag) else s
  }

  function MergePrev(s: seq<Block>, i: nat): (r: seq<Block>)
    requires i < |s|
  {
    if i > 0 && s[i - 1].tag && s[i - 1].End() == s[i].base then JoinNext(s, i - 1, s[i - 1].tag) else s
  }

  /** Joins the free block `i` with a free right neighbour, then with a free left one. */
  function MergeAt(s: seq<Block>, i: nat): (r: seq<Block>)
    requires i < |s|
  {
    MergePrev(MergeNext(s, i), i)
  }

  /** Frees the block behind whose header `ptr` points and ignores a null pointer; nothing for
      a pointer to no block. */
  function KFree(s: seq<Block>, ptr: nat): Option<seq<Block>> {
    if ptr == 0 then Some(s)
    else
      var i := if ptr < HEADER then |s| else IndexOf(s, ptr - HEADER, 0);
      if i == |s| then None else Some(MergeAt(s[i := s[i].(tag := true)], i))
  }

  lemma JoinWellSized(s: seq<Block>, k: nat, tag: bool)
    requires WellSized(s) && k + 1 < |s|
    ensures WellSized(JoinNext(s, k, tag))
  {
    var r := JoinNext(s, k, tag);
    forall x | x in r ensures x.size >= HEADER {
      var j :| 0 <= j < |r| && r[j] == x;
      assert s[k] in s && (if j < k then r[j] == s[j] && s[j] in s else j > k ==> r[j] == s[j + 1] && s[j + 1] in s);
    }
  }

  lemma MergeNextCorrect(lo: nat, hi: nat, s: seq<Block>, i: nat)
    requires Tiles(lo, hi, s) && i < |s| && s[i].tag && CoalescedBut(Free, s, i) && WellSized(s)
    ensures var t := MergeNext(s, i);
            && Tiles(lo, hi, t) && CoalescedBut(Free, t, i) && WellSized(t) && Used(t) == Used(s)
            && t[i].tag && (i + 1 < |t| ==> !t[i + 1].tag)
  {
    TilesAt(lo, hi, s, i);
    if i + 1 < |s| && s[i + 1].tag {
      JoinTiles(lo, hi, s, i, true);
      JoinFreeBusy(Free, s, i, true);
      JoinCoalesced(Free, s, i, true);
      JoinWellSized(s, i, true);
    }
  }

  lemma MergePrevCorrect(lo: nat, hi: nat, s: seq<Block>, i: nat)
    requires Tiles(lo, hi, s) && i < |s| && s[i].tag && CoalescedBut(Free, s, i) && WellSized(s)
    requires i + 1 < |s| ==> !s[i + 1].tag
    ensures Inv(lo, hi, MergePrev(s, i)) && Used(MergePrev(s, i)) == Used(s)
  {
    hide Tiles, WellSized, Busy, JoinNext, Coalesced, CoalescedBut;
    if i > 0 && s[i - 1].tag {
      TilesAt(lo, hi, s, i - 1);
      JoinIndex(s, i - 1, true);
      JoinTiles(lo, hi, s, i - 1, true);
      JoinFreeBusy(Free, s, i - 1, true);
      JoinCoalesced(Free, s, i - 1, true);
      JoinWellSized(s, i - 1, true);
      CoalescedWhenDone(Free, JoinNext(s, i - 1, true), i - 1);
    } else {
      CoalescedWhenDone(Free, s, i);
    }
  }

  lemma MergeKeepsInv(lo: nat, hi: nat, s: seq<Block>, i: nat)
    requires Tiles(lo, hi, s) && i < |s| && s[i].tag && CoalescedBut(Free, s, i) && WellSized(s)
    ensures Inv(lo, hi, MergeAt(s, i))
    ensures Used(MergeAt(s, i)) == Used(s)
  {
    MergeNextCorrect(lo, hi, s, i);
    MergePrevCorrect(lo, hi, MergeNext(s, i), i);
  }

  /** Freeing the block behind a pointer takes exactly that block out of use. */
  lemma KFreeCorrect(lo: nat, hi: nat, s: seq<Block>, ptr: nat)
    requires Inv(lo, hi, s)
    ensures var r := KFree(s, ptr);
            && (r.Some? ==> Inv(lo, hi, r.value))
            && (r.Some? && ptr != 0 ==> Used(r.value) == set x | x in Used(s) && x.base + HEADER != ptr)
            && (r.None? <==> ptr != 0 && forall x :: x in s ==> x.base + HEADER != ptr)
  {
    if ptr >= HEADER {
      KFreeFinds(lo, hi, s, ptr - HEADER);
      var i := IndexOf(s, ptr - HEADER, 0);
      if i < |s| {
        hide Tiles, MergeAt, IndexOf;
        FreeAtCorrect(lo, hi, s, i);
        assert s[i] in s;
      }
    }
  }

  lemma KFreeFinds(lo: nat, hi: nat, s: seq<Block>, base: nat)
    requires Inv(lo, hi, s)
    ensures var i := IndexOf(s, base, 0);
            && (i < |s| ==> s[i].base == base)
            && forall x :: x in s && x.base == base ==> i < |s| && x == s[i]
  {
    var i := IndexOf(s, base, 0);
    forall x | x in s && x.base == base ensures i < |s| && x == s[i] {
      var j :| 0 <= j < |s| && s[j] == x;
      TilesBaseUnique(lo, hi, s, i, j);
    }
  }

  lemma FreeAtCorrect(lo: nat, hi: nat, s: seq<Block>, i: nat)
    requires Inv(lo, hi, s) && i < |s|
    ensures var t := MergeAt(s[i := s[i].(tag := true)], i);
            Inv(lo, hi, t) && Used(t) == Used(s) - {s[i]}
  {
    hide Tiles, MergeAt, Busy;
    var t := s[i := s[i].(tag := true)];
    RetagTiles(lo, hi, s, i, true);
    BusyUpdate(Free, lo, hi, s, i, t[i]);
    assert Busy(Free, [t[i]]) == {} by { OneFree(t[i]); }
    MergeKeepsInv(lo, hi, t, i);
  }

  lemma OneFree(x: Block)
    requires x.tag
    ensures Busy(Free, [x]) == {}
  {
  }

  /** A free block without free neighbours stays as it is. */
  lemma MergeStays(s: seq<Block>, i: nat)
    requires Coalesced(Free, s) && i < |s| && s[i].tag
    ensures MergeNext(s, i) == s && MergePrev(s, i) == s
  {
    hide JoinNext;
  }

  lemma SplitIndex(s: seq<Block>, i: nat, n: nat)
    requires i < |s| && s[i].size > HEADER + n + HEADER
    ensures var t := SplitAt(s, i, n);
            && |t| == |s| + 1
            && t[i] == Span(s[i].base, HEADER + n, false)
            && t[i + 1] == Span(s[i].base + HEADER + n, s[i].size - HEADER - n, true)
            && (forall j :: 0 <= j < i ==> t[j] == s[j])
            && (forall j :: i + 1 < j < |t| ==> t[j] == s[j - 1])
  {
  }

  /** The pieces of a split block, both free, are joined again. */
  lemma RejoinPieces(s: seq<Block>, i: nat, n: nat)
    requires i < |s| && s[i].tag && s[i].size > HEADER + n + HEADER
    ensures var t := SplitAt(s, i, n);
            |t| > i && MergeNext(t[i := t[i].(tag := true)], i) == s
  {
    hide SplitAt, JoinNext;
    SplitIndex(s, i, n);
    var t := SplitAt(s, i, n);
    var u := t[i := t[i].(tag := true)];
    assert JoinNext(u, i, true) == s;
  }

  lemma MergeUndoesSplit(s: seq<Block>, i: nat, n: nat)
    requires Coalesced(Free, s) && i < |s| && s[i].tag && s[i].size >= HEADER + n
    ensures var t := SplitAt(s, i, n);
            |t| > i && MergeAt(t[i := t[i].(tag := true)], i) == s
  {
    hide MergeNext, MergePrev, Coalesced;
    MergeStays(s, i);
    if s[i].size > HEADER + n + HEADER {
      RejoinPieces(s, i, n);
    } else {
      assert SplitAt(s, i, n)[i := s[i]] == s;
    }
  }

  /** Freeing straight after allocating restores the exact list of blocks. */
  lemma KFreeUndoesMalloc(lo: nat, hi: nat, s: seq<Block>, n: nat)
    requires Inv(lo, hi, s) && Malloc(s, n).1.Some?
    ensures KFree(Malloc(s, n).0, Malloc(s, n).1.value) == Some(s)
  {
    hide SplitAt, MergeAt;
    var i := FirstFit(s, n, 0);
    var t := SplitAt(s, i, n);
    SplitTiles(lo, hi, s, i, n);
    MergeUndoesSplit(s, i, n);
    assert t[i].base == s[i].base by { SplitBase(s, i, n); }
    TilesBaseUnique(lo, hi, t, i, IndexOf(t, s[i].base, 0));
  }

  lemma SplitBase(s: seq<Block>, i: nat, n: nat)
    requires i < |s| && s[i].size >= HEADER + n
    ensures |SplitAt(s, i, n)| > i && SplitAt(s, i, n)[i] == Pieces(s[i], n)[0]
  {
  }

  // ----- Blocks in use -----

  lemma BlockIndex(lo: nat, hi: nat, s: seq<Block>, x: Block)
    requires Tiles(lo, hi, s) && x in s
    ensures IndexOf(s, x.base, 0) < |s| && s[IndexOf(s, x.base, 0)] == x
  {
    var j :| 0 <= j < |s| && s[j] == x;
    TilesBaseUnique(lo, hi, s, IndexOf(s, x.base, 0), j);
  }

  lemma UsedUnique(lo: nat, hi: nat, s: seq<Block>, was: Block)
    requires Inv(lo, hi, s) && was in Used(s)
    ensures was in s && was.Covers(was.base) && was.size >= HEADER
    ensures forall x :: x in Used(s) && x.base == was.base ==> x == was
  {
    BlockIndex(lo, hi, s, was);
    assert was.size >= HEADER;
    forall x | x in Used(s) && x.base == was.base ensures x == was {
      BlockIndex(lo, hi, s, x);
    }
  }

  lemma NewBlockApart(lo: nat, hi: nat, s: seq<Block>, n: nat)
    requires Inv(lo, hi, s) && Malloc(s, n).1.Some?
    ensures forall x, a: nat :: x in Used(s) && x.Covers(a) ==> !NewBlock(s, n).Covers(a)
    ensures NewBlock(s, n) !in Used(s)
  {
    MallocCorrect(lo, hi, s, n);
    var b := NewBlock(s, n);
    forall x, a: nat | x in Used(s) && x.Covers(a) ensures !b.Covers(a) {
      BusyNotFree(Free, lo, hi, s, x, a);
      assert b.Covers(a) ==> UnitFree(Free, s, a);
    }
    assert b.Covers(b.base);
  }
}
