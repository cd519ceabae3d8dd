// The lists of the page allocators as the kernel stores them: byte addresses and page counts
// in 32-bit words, with the arithmetic of the machine.  A list of spans counted in pages is
// the same list where nothing wraps and every address is a multiple of the page size.

module ByteLists {
  import opened Tiling

  const PAGE: nat := 4096
  const WORD: nat := 0x1_0000_0000

  type Word = x: int | 0 <= x < WORD

  datatype Raw<T> = Raw(base: Word, pages: Word, tag: T) {
    /** Where the area ends, as the machine computes it. */
    function End(): Word { (base + pages * PAGE) % WORD }
  }

  /** Where `n` pages from `addr` on end, as the machine computes it. */
  function RangeEnd(addr: Word, n: Word): Word {
    (addr + n * PAGE) % WORD
  }

  lemma RangeFits(addr: Word, n: Word)
    requires addr + n * PAGE < WORD
    ensures RangeEnd(addr, n) == addr + n * PAGE
  {
  }

  /** The bytes an entry stands for. */
  function Bytes<T>(x: Raw<T>): Span<T> {
    Span(x.base, x.pages * PAGE, x.tag)
  }

  function AllBytes<T>(s: seq<Raw<T>>): (r: seq<Span<T>>)
    ensures |r| == |s|
    ensures forall i :: 0 <= i < |s| ==> r[i] == Bytes(s[i])
  {
    seq(|s|, i requires 0 <= i < |s| => Bytes(s[i]))
  }

  /** The entries fill the pages lo..hi exactly, byte by byte and in order. */
  ghost predicate Partition<T>(lo: nat, hi: nat, s: seq<Raw<T>>) {
    Tiles(lo * PAGE, hi * PAGE, AllBytes(s))
  }

  // ----- Counting in pages -----

  function ToRaw<T>(x: Span<T>): Raw<T> {
    Raw(x.base * PAGE % WORD, x.size % WORD, x.tag)
  }

  function ToRaws<T>(p: seq<Span<T>>): (r: seq<Raw<T>>)
    ensures |r| == |p|
    ensures forall i :: 0 <= i < |p| ==> r[i] == ToRaw(p[i])
  {
    seq(|p|, i requires 0 <= i < |p| => ToRaw(p[i]))
  }

  function ToPages<T>(s: seq<Raw<T>>): (r: seq<Span<T>>)
    ensures |r| == |s|
    ensures forall i :: 0 <= i < |s| ==> r[i] == Span(s[i].base / PAGE, s[i].pages, s[i].tag)
  {
    seq(|s|, i requires 0 <= i < |s| => Span(s[i].base / PAGE, s[i].pages, s[i].tag))
  }

  /** The entry of a span that ends below 4 GiB. */
  lemma RawOf<T>(x: Span<T>)
    requires x.End() * PAGE < WORD
    ensures ToRaw(x).base == x.base * PAGE && ToRaw(x).pages == x.size && ToRaw(x).End() == x.End() * PAGE
    ensures Bytes(ToRaw(x)) == Span(x.base * PAGE, x.size * PAGE, x.tag)
  {
  }

  /** A tiling in pages is a partition in bytes. */
  lemma {:induction false} PagesPartition<T>(lo: nat, hi: nat, p: seq<Span<T>>)
    requires Tiles(lo, hi, p) && hi * PAGE < WORD
    ensures Partition(lo, hi, ToRaws(p))
    decreases |p|
  {
    var s := ToRaws(p);
    if p != [] {
      TilesAt(lo, hi, p, 0);
      RawOf(p[0]);
      PagesPartition(p[0].End(), hi, p[1..]);
      assert ToRaws(p[1..]) == s[1..];
      assert AllBytes(s[1..]) == AllBytes(s)[1..];
    }
  }

  /** And every partition in bytes is a tiling in pages. */
  lemma {:induction false} PartitionPages<T>(lo: nat, hi: nat, s: seq<Raw<T>>)
    requires Partition(lo, hi, s) && hi * PAGE < WORD
    ensures Tiles(lo, hi, ToPages(s)) && ToRaws(ToPages(s)) == s
    decreases |s|
  {
    var p := ToPages(s);
    if s != [] {
      TilesAt(lo * PAGE, hi * PAGE, AllBytes(s), 0);
      assert s[0].base == lo * PAGE;
      assert AllBytes(s[1..]) == AllBytes(s)[1..];
      PartitionPages(lo + s[0].pages, hi, s[1..]);
      assert ToPages(s[1..]) == p[1..];
      assert ToRaw(p[0]) == s[0];
      assert ToRaws(p) == [ToRaw(p[0])] + ToRaws(p[1..]);
    } else {
      assert ToRaws(p) == [];
    }
  }

  /** The entries of a partition, with their exact ends. */
  lemma EntryOfPages<T>(lo: nat, hi: nat, p: seq<Span<T>>, i: nat)
    requires Tiles(lo, hi, p) && hi * PAGE < WORD && i < |p|
    ensures var x := ToRaws(p)[i];
            && x.base == p[i].base * PAGE && x.pages == p[i].size > 0 && x.tag == p[i].tag
            && x.End() == p[i].End() * PAGE && lo <= p[i].base && p[i].End() <= hi
  {
    TilesAt(lo, hi, p, i);
    RawOf(p[i]);
  }

  // ----- Splitting an entry -----

  function Before<T>(x: Raw<T>, addr: Word, idle: T): seq<Raw<T>> {
    if addr > x.base then [Raw(x.base, (addr - x.base) / PAGE, idle)] else []
  }

  function After<T>(x: Raw<T>, addr: Word, n: Word, idle: T): seq<Raw<T>> {
    if RangeEnd(addr, n) < x.End() then
      [Raw(RangeEnd(addr, n), (x.pages - ((addr - x.base) % WORD / PAGE + n)) % WORD, idle)]
    else []
  }

  /** Entry `i` becomes `n` pages from `addr` on, with new entries on either side. */
  function Split<T>(s: seq<Raw<T>>, i: nat, addr: Word, n: Word, idle: T, used: T): seq<Raw<T>>
    requires i < |s|
  {
    s[..i] + (Before(s[i], addr, idle) + [Raw(addr, n, used)] + After(s[i], addr, n, idle)) + s[i + 1..]
  }

  /** What a caller has to see to: whole pages, at a page, ending below 4 GiB. */
  predicate Sound(addr: Word, n: Word) {
    n > 0 && addr % PAGE == 0 && addr + n * PAGE < WORD
  }

  /** For such requests the machine does what counting in pages does. */
  lemma SplitAgrees<T>(lo: nat, hi: nat, p: seq<Span<T>>, i: nat, addr: Word, n: Word, idle: T, used: T)
    requires Tiles(lo, hi, p) && hi * PAGE < WORD && i < |p|
    requires Sound(addr, n) && p[i].base * PAGE <= addr && RangeEnd(addr, n) <= ToRaws(p)[i].End()
    ensures p[i].base <= addr / PAGE && addr / PAGE + n <= p[i].End()
    ensures Split(ToRaws(p), i, addr, n, idle, used) == ToRaws(Carve(p, i, addr / PAGE, n, idle, used))
  {
    EntryOfPages(lo, hi, p, i);
    var s, x, at := ToRaws(p), p[i], addr / PAGE;
    assert at + n <= x.End();
    var pieces := Pieces(x, at, n, idle, used);
    assert ToRaws(pieces) == Before(s[i], addr, idle) + [Raw(addr, n, used)] + After(s[i], addr, n, idle) by {
      PiecesAgree(lo, hi, x, addr, n, idle, used);
    }
    ToRawsConcat(p[..i], pieces, p[i + 1..]);
    assert ToRaws(p[..i]) == s[..i] && ToRaws(p[i + 1..]) == s[i + 1..];
  }

  lemma ToRawsConcat<T>(a: seq<Span<T>>, b: seq<Span<T>>, c: seq<Span<T>>)
    ensures ToRaws(a + b + c) == ToRaws(a) + ToRaws(b) + ToRaws(c)
  {
  }

  lemma PiecesAgree<T>(lo: nat, hi: nat, x: Span<T>, addr: Word, n: Word, idle: T, used: T)
    requires x.End() <= hi && hi * PAGE < WORD && Sound(addr, n)
    requires x.base * PAGE <= addr && addr + n * PAGE <= x.End() * PAGE
    ensures x.base <= addr / PAGE && addr / PAGE + n <= x.End()
    ensures ToRaws(Pieces(x, addr / PAGE, n, idle, used))
            == Before(ToRaw(x), addr, idle) + [Raw(addr, n, used)] + After(ToRaw(x), addr, n, idle)
  {
    RawOf(x);
    var at := addr / PAGE;
    assert addr == at * PAGE;
    assert RangeEnd(addr, n) == addr + n * PAGE;
    assert (addr - x.base * PAGE) / PAGE == at - x.base;
    var a, b := FreePiece(x.base, at, idle), FreePiece(at + n, x.End(), idle);
    assert ToRaws(a) == Before(ToRaw(x), addr, idle) by {
      if at > x.base { RawOf(a[0]); }
    }
    assert ToRaws(b) == After(ToRaw(x), addr, n, idle) by {
      if at + n < x.End() { RawOf(b[0]); }
    }
    RawOf(Span(at, n, used));
    assert ToRaws([Span(at, n, used)]) == [Raw(addr, n, used)];
    ToRawsConcat(a, [Span(at, n, used)], b);
  }

  /** A split that the machine's comparison lets through keeps the partition if and only if
      the request is sound. */
  lemma SplitExact<T>(lo: nat, hi: nat, s: seq<Raw<T>>, i: nat, addr: Word, n: Word, idle: T, used: T)
    requires Partition(lo, hi, s) && hi * PAGE < WORD && i < |s|
    requires s[i].base <= addr && RangeEnd(addr, n) <= s[i].End()
    ensures Partition(lo, hi, Split(s, i, addr, n, idle, used)) <==> Sound(addr, n)
  {
    PartitionPages(lo, hi, s);
    if Sound(addr, n) {
      SoundSplit(lo, hi, ToPages(s), i, addr, n, idle, used);
    }
    if Partition(lo, hi, Split(s, i, addr, n, idle, used)) {
      PartitionIsSound(lo, hi, s, i, addr, n, idle, used);
    }
  }

  lemma SoundSplit<T>(lo: nat, hi: nat, p: seq<Span<T>>, i: nat, addr: Word, n: Word, idle: T, used: T)
    requires Tiles(lo, hi, p) && hi * PAGE < WORD && i < |p| && Sound(addr, n)
    requires ToRaws(p)[i].base <= addr && RangeEnd(addr, n) <= ToRaws(p)[i].End()
    ensures Partition(lo, hi, Split(ToRaws(p), i, addr, n, idle, used))
  {
    hide Tiles, Partition, Split, Carve, RangeEnd;
    EntryOfPages(lo, hi, p, i);
    SplitAgrees(lo, hi, p, i, addr, n, idle, used);
    CarveTiles(lo, hi, p, i, addr / PAGE, n, idle, used);
    PagesPartition(lo, hi, Carve(p, i, addr / PAGE, n, idle, used));
  }

  lemma PartitionIsSound<T>(lo: nat, hi: nat, s: seq<Raw<T>>, i: nat, addr: Word, n: Word, idle: T, used: T)
    requires Partition(lo, hi, s) && hi * PAGE < WORD && i < |s| && s[i].base <= addr
    requires Partition(lo, hi, Split(s, i, addr, n, idle, used))
    ensures Sound(addr, n)
  {
    hide Tiles, After;
    var r, base := Split(s, i, addr, n, idle, used), s[i].base;
    assert base % PAGE == 0 by {
      PartitionPages(lo, hi, s);
      EntryOfPages(lo, hi, ToPages(s), i);
    }
    var k := i + |Before(s[i], addr, idle)|;
    assert r[k] == Raw(addr, n, used);
    TilesAt(lo * PAGE, hi * PAGE, AllBytes(r), k);
    if addr > base {
      assert r[i] == Raw(base, (addr - base) / PAGE, idle);
      TilesAt(lo * PAGE, hi * PAGE, AllBytes(r), i);
      assert addr == base + (addr - base) / PAGE * PAGE;
    }
  }

  // ----- Joining entries -----

  /** Entry `k` joined with the next one; the page counts are added in a word. */
  function Join<T>(s: seq<Raw<T>>, k: nat, tag: T): seq<Raw<T>>
    requires k + 1 < |s|
  {
    s[..k] + [Raw(s[k].base, (s[k].pages + s[k + 1].pages) % WORD, tag)] + s[k + 2..]
  }

  lemma JoinAgrees<T>(lo: nat, hi: nat, p: seq<Span<T>>, k: nat, tag: T)
    requires Tiles(lo, hi, p) && hi * PAGE < WORD && k + 1 < |p|
    ensures Join(ToRaws(p), k, tag) == ToRaws(JoinNext(p, k, tag))
  {
    JoinedEntry(lo, hi, p, k, tag);
    JoinIndex(p, k, tag);
    hide Tiles, ToRaw, JoinNext;
    var s, r, t := ToRaws(p), Join(ToRaws(p), k, tag), ToRaws(JoinNext(p, k, tag));
    forall j | 0 <= j < |r| ensures r[j] == t[j] {
      assert j < k ==> r[j] == s[j];
      assert j > k ==> r[j] == s[j + 1];
    }
  }

  lemma JoinedEntry<T>(lo: nat, hi: nat, p: seq<Span<T>>, k: nat, tag: T)
    requires Tiles(lo, hi, p) && hi * PAGE < WORD && k + 1 < |p|
    ensures var s := ToRaws(p);
            ToRaw(Span(p[k].base, p[k].size + p[k + 1].size, tag))
            == Raw(s[k].base, (s[k].pages + s[k + 1].pages) % WORD, tag)
  {
    hide Tiles;
    EntryOfPages(lo, hi, p, k);
    EntryOfPages(lo, hi, p, k + 1);
    TilesAt(lo, hi, p, k);
    RawOf(Span(p[k].base, p[k].size + p[k + 1].size, tag));
  }

  // ----- Searching by address -----

  /** The first entry from index `i` on that begins at `addr`, or |s|. */
  function RawIndex<T>(s: seq<Raw<T>>, addr: Word, i: nat): (k: nat)
    requires i <= |s|
    ensures i <= k <= |s|
    ensures k < |s| ==> s[k].base == addr
    ensures forall j :: i <= j < k ==> s[j].base != addr
    decreases |s| - i
  {
    if i == |s| || s[i].base == addr then i else RawIndex(s, addr, i + 1)
  }

  lemma {:induction false} IndexAgrees<T>(lo: nat, hi: nat, p: seq<Span<T>>, addr: Word, i: nat)
    requires Tiles(lo, hi, p) && hi * PAGE < WORD && i <= |p|
    ensures addr % PAGE == 0 ==> RawIndex(ToRaws(p), addr, i) == IndexOf(p, addr / PAGE, i)
    ensures addr % PAGE != 0 ==> RawIndex(ToRaws(p), addr, i) == |p|
    decreases |p| - i
  {
    if i < |p| {
      EntryOfPages(lo, hi, p, i);
      IndexAgrees(lo, hi, p, addr, i + 1);
    }
  }
}
