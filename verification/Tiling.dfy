// Lists of spans that lie end to end. The allocators of physical memory, virtual
// regions and kernel heap blocks all keep such a list and change it by cutting one
// span into pieces and by joining neighbours.

module Tiling {

  /** `size` units from `base` on, with whatever the allocator records about them. */
  datatype Span<T> = Span(base: nat, size: nat, tag: T) {
    function End(): nat { base + size }

    predicate Covers(p: int) { base <= p < base + size }
  }

  /** The spans of `s` fill lo..hi exactly, in order; none is empty. */
  predicate Tiles<T>(lo: nat, hi: nat, s: seq<Span<T>>)
    decreases |s|
  {
    if s == [] then lo == hi
    else s[0].base == lo && s[0].size > 0 && Tiles(s[0].End(), hi, s[1..])
  }

  lemma TilesOne<T>(x: Span<T>)
    requires x.size > 0
    ensures Tiles(x.base, x.End(), [x])
  {
    assert [x][1..] == [];
  }

  /** Where the part of the list from index `i` on begins. */
  function Cut<T>(hi: nat, s: seq<Span<T>>, i: nat): nat
    requires i <= |s|
  {
    if i == |s| then hi else s[i].base
  }

  lemma {:induction false} TilesConcat<T>(lo: nat, mid: nat, hi: nat, a: seq<Span<T>>, b: seq<Span<T>>)
    requires Tiles(lo, mid, a) && Tiles(mid, hi, b)
    ensures Tiles(lo, hi, a + b)
    decreases |a|
  {
    if a == [] {
      assert a + b == b;
    } else {
      TilesConcat(a[0].End(), mid, hi, a[1..], b);
      assert (a + b)[1..] == a[1..] + b;
    }
  }

  lemma {:induction false} TilesSplit<T>(lo: nat, hi: nat, s: seq<Span<T>>, i: nat)
    requires Tiles(lo, hi, s) && i <= |s|
    ensures Tiles(lo, Cut(hi, s, i), s[..i]) && Tiles(Cut(hi, s, i), hi, s[i..])
    ensures lo <= Cut(hi, s, i) <= hi
    decreases |s|
  {
    if i == 0 {
      assert s[..0] == [] && s[0..] == s;
      if s != [] { TilesSplit(s[0].End(), hi, s[1..], |s| - 1); }
    } else {
      TilesSplit(s[0].End(), hi, s[1..], i - 1);
      assert s[1..][..i - 1] == s[..i][1..] && s[1..][i - 1..] == s[i..];
    }
  }

  /** Neighbours touch, and every span lies inside lo..hi. */
  lemma TilesAt<T>(lo: nat, hi: nat, s: seq<Span<T>>, i: nat)
    requires Tiles(lo, hi, s) && i < |s|
    ensures s[i].size > 0 && lo <= s[i].base && s[i].End() == Cut(hi, s, i + 1) <= hi
  {
    TilesSplit(lo, hi, s, i);
    assert s[i..][0] == s[i];
    TilesSplit(lo, hi, s, i + 1);
    assert s[i..][1..] == s[i + 1..];
    if i + 1 < |s| { assert s[i + 1..][0] == s[i + 1]; }
  }

  /** An earlier span ends before a later one begins. */
  lemma {:induction false} TilesOrdered<T>(lo: nat, hi: nat, s: seq<Span<T>>, i: nat, j: nat)
    requires Tiles(lo, hi, s) && i < j < |s|
    ensures s[i].End() <= s[j].base
    decreases j - i
  {
    TilesAt(lo, hi, s, i);
    if i + 1 < j {
      TilesAt(lo, hi, s, i + 1);
      TilesOrdered(lo, hi, s, i + 1, j);
    }
  }

  /** No unit belongs to two spans, so a base identifies its span. */
  lemma TilesDisjoint<T>(lo: nat, hi: nat, s: seq<Span<T>>, i: nat, j: nat, p: int)
    requires Tiles(lo, hi, s) && i < |s| && j < |s|
    requires s[i].Covers(p) && s[j].Covers(p)
    ensures i == j
  {
    if i < j { TilesOrdered(lo, hi, s, i, j); }
    if j < i { TilesOrdered(lo, hi, s, j, i); }
  }

  lemma TilesBaseUnique<T>(lo: nat, hi: nat, s: seq<Span<T>>, i: nat, j: nat)
    requires Tiles(lo, hi, s) && i < |s| && j < |s| && s[i].base == s[j].base
    ensures i == j
  {
    TilesAt(lo, hi, s, i);
    TilesAt(lo, hi, s, j);
    TilesDisjoint(lo, hi, s, i, j, s[i].base);
  }

  /** Every unit of lo..hi belongs to a span. */
  lemma {:induction false} TilesCover<T>(lo: nat, hi: nat, s: seq<Span<T>>, p: nat) returns (i: nat)
    requires Tiles(lo, hi, s) && lo <= p < hi
    ensures i < |s| && s[i].Covers(p)
    decreases |s|
  {
    if s[0].Covers(p) {
      i := 0;
    } else {
      i := TilesCover(s[0].End(), hi, s[1..], p);
      i := i + 1;
    }
  }

  /** The spans i..j replaced by `pieces`. */
  function Replace<T>(s: seq<Span<T>>, i: nat, j: nat, pieces: seq<Span<T>>): (r: seq<Span<T>>)
    requires i <= j <= |s|
    ensures |r| == i + |pieces| + |s| - j
    ensures forall k :: 0 <= k < i ==> r[k] == s[k]
    ensures forall k :: 0 <= k < |pieces| ==> r[i + k] == pieces[k]
    ensures forall k :: i + |pieces| <= k < |r| ==> r[k] == s[k - |pieces| - i + j]
  {
    s[..i] + pieces + s[j..]
  }

  /** Replacing spans by pieces that fill the same place keeps the tiling. */
  lemma ReplaceTiles<T>(lo: nat, hi: nat, s: seq<Span<T>>, i: nat, j: nat, pieces: seq<Span<T>>)
    requires Tiles(lo, hi, s) && i <= j <= |s|
    requires Tiles(Cut(hi, s, i), Cut(hi, s, j), pieces)
    ensures Tiles(lo, hi, Replace(s, i, j, pieces))
  {
    TilesSplit(lo, hi, s, i);
    TilesSplit(lo, hi, s, j);
    TilesConcat(lo, Cut(hi, s, i), Cut(hi, s, j), s[..i], pieces);
    TilesConcat(lo, Cut(hi, s, j), hi, s[..i] + pieces, s[j..]);
  }

  /** Span `k` joined with the next one. */
  function JoinNext<T>(s: seq<Span<T>>, k: nat, tag: T): (r: seq<Span<T>>)
    requires k + 1 < |s|
    ensures |r| == |s| - 1
    ensures r[k] == Span(s[k].base, s[k].size + s[k + 1].size, tag)
    ensures forall j :: 0 <= j < k ==> r[j] == s[j]
    ensures forall j :: k < j < |r| ==> r[j] == s[j + 1]
  {
    Replace(s, k, k + 2, [Span(s[k].base, s[k].size + s[k + 1].size, tag)])
  }

  lemma JoinTiles<T>(lo: nat, hi: nat, s: seq<Span<T>>, k: nat, tag: T)
    requires Tiles(lo, hi, s) && k + 1 < |s|
    ensures Tiles(lo, hi, JoinNext(s, k, tag))
  {
    TilesAt(lo, hi, s, k);
    TilesAt(lo, hi, s, k + 1);
    var x := Span(s[k].base, s[k].size + s[k + 1].size, tag);
    TilesOne(x);
    ReplaceTiles(lo, hi, s, k, k + 2, [x]);
  }

  lemma JoinIndex<T>(s: seq<Span<T>>, k: nat, tag: T)
    requires k + 1 < |s|
    ensures var t := JoinNext(s, k, tag);
            && |t| == |s| - 1 && t[k] == Span(s[k].base, s[k].size + s[k + 1].size, tag)
            && (forall j :: 0 <= j < k ==> t[j] == s[j])
            && (forall j :: k < j < |t| ==> t[j] == s[j + 1])
  {
  }

  /** Changing what is recorded about a span does not move it. */
  lemma RetagTiles<T>(lo: nat, hi: nat, s: seq<Span<T>>, k: nat, tag: T)
    requires Tiles(lo, hi, s) && k < |s|
    ensures Tiles(lo, hi, s[k := s[k].(tag := tag)])
  {
    TilesAt(lo, hi, s, k);
    var x := s[k].(tag := tag);
    TilesOne(x);
    ReplaceTiles(lo, hi, s, k, k + 1, [x]);
    assert Replace(s, k, k + 1, [x]) == s[k := x];
  }

  // ----- Spans in use and free spans -----

  /** The spans in use; `free` says of a tag that its span is not. */
  function Busy<T(==)>(free: T -> bool, s: seq<Span<T>>): set<Span<T>> {
    set x | x in s && !free(x.tag)
  }

  /** No two neighbours are both free. */
  ghost predicate Coalesced<T>(free: T -> bool, s: seq<Span<T>>) {
    forall i, j :: 0 <= i && i + 1 == j && j < |s| ==> !(free(s[i].tag) && free(s[j].tag))
  }

  /** Only span `k` may have a free neighbour while being free. */
  ghost predicate CoalescedBut<T>(free: T -> bool, s: seq<Span<T>>, k: nat) {
    forall i, j :: 0 <= i && i + 1 == j && j < |s| && i != k && j != k ==> !(free(s[i].tag) && free(s[j].tag))
  }

  ghost predicate UnitFree<T>(free: T -> bool, s: seq<Span<T>>, p: int) {
    exists i :: 0 <= i < |s| && free(s[i].tag) && s[i].Covers(p)
  }

  /** All of the n units from p on are free. */
  ghost predicate AllFree<T>(free: T -> bool, s: seq<Span<T>>, p: int, n: nat) {
    forall q :: p <= q < p + n ==> UnitFree(free, s, q)
  }

  lemma BusyReplace<T>(free: T -> bool, s: seq<Span<T>>, i: nat, j: nat, pieces: seq<Span<T>>)
    requires i <= j <= |s|
    ensures Busy(free, Replace(s, i, j, pieces)) == Busy(free, s[..i]) + Busy(free, pieces) + Busy(free, s[j..])
    ensures Busy(free, s) == Busy(free, s[..i]) + Busy(free, s[i..j]) + Busy(free, s[j..])
  {
    assert s == s[..i] + s[i..j] + s[j..];
  }

  lemma BusyUpdate<T>(free: T -> bool, lo: nat, hi: nat, s: seq<Span<T>>, i: nat, x: Span<T>)
    requires Tiles(lo, hi, s) && i < |s|
    ensures Busy(free, s[i := x]) == Busy(free, s) - {s[i]} + Busy(free, [x])
  {
    BusyReplace(free, s, i, i + 1, [x]);
    assert Replace(s, i, i + 1, [x]) == s[i := x];
    assert s[i..i + 1] == [s[i]];
    if s[i] in s[..i] {
      var j :| 0 <= j < i && s[j] == s[i];
      TilesBaseUnique(lo, hi, s, i, j);
    }
    if s[i] in s[i + 1..] {
      var j :| 0 <= j < |s| - i - 1 && s[i + 1..][j] == s[i];
      TilesBaseUnique(lo, hi, s, i, i + 1 + j);
    }
  }

  lemma JoinFreeBusy<T>(free: T -> bool, s: seq<Span<T>>, k: nat, tag: T)
    requires k + 1 < |s| && free(s[k].tag) && free(s[k + 1].tag) && free(tag)
    ensures Busy(free, JoinNext(s, k, tag)) == Busy(free, s)
  {
    BusyReplace(free, s, k, k + 2, [Span(s[k].base, s[k].size + s[k + 1].size, tag)]);
    assert s[k..k + 2] == [s[k], s[k + 1]];
  }

  /** Joining span `k`, free, with its free right neighbour: it may still have a free
      left neighbour, nobody else gets one. */
  lemma JoinCoalesced<T>(free: T -> bool, s: seq<Span<T>>, k: nat, tag: T)
    requires k + 1 < |s| && free(s[k].tag) && free(s[k + 1].tag)
    requires CoalescedBut(free, s, k) || CoalescedBut(free, s, k + 1)
    ensures CoalescedBut(free, JoinNext(s, k, tag), k)
    ensures CoalescedBut(free, s, k) && k + 2 < |s| ==> !free(JoinNext(s, k, tag)[k + 1].tag)
    ensures CoalescedBut(free, s, k + 1) && k > 0 ==> !free(JoinNext(s, k, tag)[k - 1].tag)
  {
    var t := JoinNext(s, k, tag);
    forall i, j | 0 <= i && i + 1 == j && j < |t| && i != k && j != k ensures !(free(t[i].tag) && free(t[j].tag)) {
      if i > k { assert t[i] == s[i + 1] && t[j] == s[j + 1]; }
    }
  }

  lemma CoalescedWhenDone<T>(free: T -> bool, s: seq<Span<T>>, k: nat)
    requires k < |s| && CoalescedBut(free, s, k)
    requires k > 0 ==> !free(s[k - 1].tag)
    requires k + 1 < |s| ==> !free(s[k + 1].tag)
    ensures Coalesced(free, s)
  {
  }

  /** Where free neighbours are joined, free units in a row lie in one span. */
  lemma FreeRunInOneSpan<T>(free: T -> bool, lo: nat, hi: nat, s: seq<Span<T>>, p: nat, n: nat) returns (i: nat)
    requires Tiles(lo, hi, s) && Coalesced(free, s) && n > 0 && AllFree(free, s, p, n)
    ensures i < |s| && free(s[i].tag) && s[i].base <= p && p + n <= s[i].End()
  {
    assert UnitFree(free, s, p);
    i :| 0 <= i < |s| && free(s[i].tag) && s[i].Covers(p);
    if p + n > s[i].End() {
      var q := s[i].End();
      assert UnitFree(free, s, q);
      var j :| 0 <= j < |s| && free(s[j].tag) && s[j].Covers(q);
      TilesAt(lo, hi, s, j);
      TilesAt(lo, hi, s, i);
      TilesAt(lo, hi, s, i + 1);
      TilesDisjoint(lo, hi, s, j, i + 1, q);
    }
  }

  /** Units in use are not free. */
  lemma BusyNotFree<T>(free: T -> bool, lo: nat, hi: nat, s: seq<Span<T>>, x: Span<T>, p: nat)
    requires Tiles(lo, hi, s) && x in Busy(free, s) && x.Covers(p)
    ensures !UnitFree(free, s, p)
  {
    var j :| 0 <= j < |s| && s[j] == x;
    if UnitFree(free, s, p) {
      var i :| 0 <= i < |s| && free(s[i].tag) && s[i].Covers(p);
      TilesDisjoint(lo, hi, s, i, j, p);
    }
  }

  /** With nothing in use, all is one free span. */
  lemma NothingBusy<T>(free: T -> bool, lo: nat, hi: nat, s: seq<Span<T>>)
    requires Tiles(lo, hi, s) && Coalesced(free, s) && lo < hi && Busy(free, s) == {}
    ensures |s| == 1 && free(s[0].tag) && s[0].base == lo && s[0].size == hi - lo
  {
    forall k | 0 <= k < |s| ensures free(s[k].tag) {
      assert s[k] !in Busy(free, s);
    }
    TilesAt(lo, hi, s, 0);
  }

  // ----- Carving a part out of a free span -----

  function FreePiece<T>(from: nat, to: nat, idle: T): (r: seq<Span<T>>)
    requires from <= to
    ensures |r| <= 1
  {
    if from < to then [Span(from, to - from, idle)] else []
  }

  /** The pieces of `x` when `n` of its units from `addr` on come into use: what is left on
      either side is marked `idle`. */
  function Pieces<T>(x: Span<T>, addr: nat, n: nat, idle: T, used: T): (r: seq<Span<T>>)
    requires x.base <= addr && addr + n <= x.End()
  {
    FreePiece(x.base, addr, idle) + [Span(addr, n, used)] + FreePiece(addr + n, x.End(), idle)
  }

  function Carve<T>(s: seq<Span<T>>, i: nat, addr: nat, n: nat, idle: T, used: T): seq<Span<T>>
    requires i < |s| && s[i].base <= addr && addr + n <= s[i].End()
  {
    Replace(s, i, i + 1, Pieces(s[i], addr, n, idle, used))
  }

  lemma FreePieceTiles<T>(from: nat, to: nat, idle: T)
    requires from <= to
    ensures Tiles(from, to, FreePiece(from, to, idle))
  {
    if from < to { TilesOne(FreePiece(from, to, idle)[0]); }
  }

  lemma PiecesTile<T>(x: Span<T>, addr: nat, n: nat, idle: T, used: T)
    requires x.base <= addr && addr + n <= x.End() && n > 0
    ensures Tiles(x.base, x.End(), Pieces(x, addr, n, idle, used))
  {
    var a, mid, b := FreePiece(x.base, addr, idle), Span(addr, n, used), FreePiece(addr + n, x.End(), idle);
    TilesOne(mid);
    FreePieceTiles(x.base, addr, idle);
    FreePieceTiles(addr + n, x.End(), idle);
    TilesConcat(x.base, addr, addr + n, a, [mid]);
    TilesConcat(x.base, addr + n, x.End(), a + [mid], b);
  }

  lemma CarveTiles<T>(lo: nat, hi: nat, s: seq<Span<T>>, i: nat, addr: nat, n: nat, idle: T, used: T)
    requires Tiles(lo, hi, s) && i < |s| && s[i].base <= addr && addr + n <= s[i].End() && n > 0
    ensures Tiles(lo, hi, Carve(s, i, addr, n, idle, used))
  {
    TilesAt(lo, hi, s, i);
    PiecesTile(s[i], addr, n, idle, used);
    ReplaceTiles(lo, hi, s, i, i + 1, Pieces(s[i], addr, n, idle, used));
  }

  lemma CarveBusy<T>(free: T -> bool, s: seq<Span<T>>, i: nat, addr: nat, n: nat, idle: T, used: T)
    requires i < |s| && s[i].base <= addr && addr + n <= s[i].End()
    requires free(s[i].tag) && free(idle) && !free(used)
    ensures Busy(free, Carve(s, i, addr, n, idle, used)) == Busy(free, s) + {Span(addr, n, used)}
  {
    var x, mid := s[i], Span(addr, n, used);
    var a, b := FreePiece(x.base, addr, idle), FreePiece(addr + n, x.End(), idle);
    BusyReplace(free, s, i, i + 1, Pieces(x, addr, n, idle, used));
    assert s[i..i + 1] == [x];
    assert Busy(free, Pieces(x, addr, n, idle, used)) == {mid} by {
      forall y | y in a + [mid] + b ensures y == mid || free(y.tag) {}
      assert mid in a + [mid] + b;
    }
  }

  /** Carving never leaves two free neighbours where there were none. */
  lemma CarveCoalesced<T>(free: T -> bool, s: seq<Span<T>>, i: nat, addr: nat, n: nat, idle: T, used: T)
    requires Coalesced(free, s) && i < |s| && s[i].base <= addr && addr + n <= s[i].End()
    requires free(s[i].tag) && !free(used)
    ensures Coalesced(free, Carve(s, i, addr, n, idle, used))
  {
    var p := Pieces(s[i], addr, n, idle, used);
    var r := Carve(s, i, addr, n, idle, used);
    var d := |p| - 1;
    forall a, b | 0 <= a && a + 1 == b && b < |r| ensures !(free(r[a].tag) && free(r[b].tag)) {
      if b < i {
      } else if b == i {
        assert r[a] == s[a] && !free(s[a].tag);
      } else if a < i + d {
        assert r[a] == p[a - i] && r[b] == p[b - i];
      } else if a == i + d {
        assert r[b] == s[i + 1];
      } else {
        assert r[a] == s[a - d] && r[b] == s[b - d];
      }
    }
  }

  /** The first span from index `i` on that begins at `addr`, or |s|. */
  function IndexOf<T>(s: seq<Span<T>>, addr: nat, i: nat): (k: nat)
    requires i <= |s|
    ensures i <= k <= |s|
    ensures k < |s| ==> s[k].base == addr
    ensures forall j :: i <= j < k ==> s[j].base != addr
    decreases |s| - i
  {
    if i == |s| || s[i].base == addr then i else IndexOf(s, addr, i + 1)
  }
}
