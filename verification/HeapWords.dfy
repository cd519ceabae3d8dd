// The kernel heap in memory: headers and list links are bytes of the heap itself.  The
// allocator reads and writes only these bytes, and keeps them the image of the list of blocks.

module HeapWords {
  import opened Common
  import opened Tiling
  import opened KernelHeap

  type Byte = x: int | 0 <= x < 256

  type Memory = nat -> Byte

  /** One past the last address of a 32-bit machine. */
  const LIMIT: nat := 0x1_0000_0000

  // ----- Words -----

  function ByteOf(w: nat, k: nat): Byte {
    if k == 0 then w % 256 else ByteOf(w / 256, k - 1)
  }

  /** The word at `a`, lowest byte first. */
  function Word(mem: Memory, a: nat): nat {
    mem(a) + 256 * (mem(a + 1) + 256 * (mem(a + 2) + 256 * mem(a + 3)))
  }

  function Put(mem: Memory, a: nat, w: nat): Memory {
    (p: nat) => if a <= p < a + 4 then ByteOf(w, p - a) else mem(p)
  }

  function PutByte(mem: Memory, a: nat, b: Byte): Memory {
    (p: nat) => if p == a then b else mem(p)
  }

  /** Subtraction on 32-bit addresses. */
  function Minus(a: nat, k: nat): nat
    requires k <= LIMIT
  {
    if a >= k then a - k else a + LIMIT - k
  }

  predicate Apart(a: nat, m: nat, b: nat, n: nat) {
    a + m <= b || b + n <= a
  }

  /** The `n` bytes from `a` on are the same. */
  ghost predicate SameAt(mem: Memory, mem': Memory, a: nat, n: nat) {
    forall p: nat :: a <= p < a + n ==> mem'(p) == mem(p)
  }

  /** No byte outside three ranges differs. */
  ghost predicate Only(mem: Memory, mem': Memory, a: nat, k: nat, b: nat, l: nat, c: nat, n: nat) {
    forall p: nat :: !(a <= p < a + k) && !(b <= p < b + l) && !(c <= p < c + n) ==> mem'(p) == mem(p)
  }

  lemma OnlyApart(mem: Memory, mem': Memory, a: nat, k: nat, b: nat, l: nat, c: nat, n: nat, q: nat, size: nat)
    requires Only(mem, mem', a, k, b, l, c, n)
    requires Apart(q, size, a, k) && Apart(q, size, b, l) && Apart(q, size, c, n)
    ensures SameAt(mem, mem', q, size)
    ensures size == 4 ==> Word(mem', q) == Word(mem, q)
  {
  }

  lemma PutSame(mem: Memory, a: nat, w: nat)
    requires w < LIMIT
    ensures Word(Put(mem, a, w), a) == w
  {
    var m := Put(mem, a, w);
    var b := w / 256;
    var c := b / 256;
    assert m(a) == ByteOf(w, 0) && m(a + 1) == ByteOf(w, 1) && m(a + 2) == ByteOf(w, 2) && m(a + 3) == ByteOf(w, 3);
    assert ByteOf(w, 1) == ByteOf(b, 0) && ByteOf(w, 2) == ByteOf(b, 1) == ByteOf(c, 0);
    assert ByteOf(w, 3) == ByteOf(b, 2) == ByteOf(c, 1) == ByteOf(c / 256, 0);
  }

  lemma PutApart(mem: Memory, a: nat, w: nat, b: nat, n: nat)
    requires Apart(a, 4, b, n)
    ensures SameAt(mem, Put(mem, a, w), b, n)
  {
  }

  lemma SameWord(mem: Memory, mem': Memory, a: nat, n: nat, b: nat)
    requires SameAt(mem, mem', a, n) && a <= b && b + 4 <= a + n
    ensures Word(mem', b) == Word(mem, b)
  {
  }

  lemma PutOther(mem: Memory, a: nat, w: nat, b: nat)
    requires Apart(a, 4, b, 4)
    ensures Word(Put(mem, a, w), b) == Word(mem, b)
  {
  }

  // ----- Links: the previous node, then the next one -----

  /** klist_add on addresses. */
  function Link(mem: Memory, at: nat, x: nat): Memory {
    var m1 := Put(mem, x, at);
    var m2 := Put(m1, x + 4, Word(m1, at + 4));
    var m3 := Put(m2, Word(m2, at + 4), x);
    Put(m3, at + 4, x)
  }

  /** klist_del on addresses. */
  function Unlink(mem: Memory, x: nat): Memory {
    var m1 := if Word(mem, x) != 0 then Put(mem, Word(mem, x) + 4, Word(mem, x + 4)) else mem;
    var m2 := if Word(m1, x + 4) != 0 then Put(m1, Word(m1, x + 4), Word(m1, x)) else m1;
    Put(Put(m2, x, 0), x + 4, 0)
  }

  ghost predicate Linked(mem: Memory, a: nat, b: nat) {
    Word(mem, a + 4) == b && Word(mem, b) == a
  }

  /** The two words of a node can be told from those of every other one. */
  ghost predicate Spread(ns: seq<nat>) {
    && |ns| >= 1
    && (forall i, j :: 0 <= i < j < |ns| ==> Apart(ns[i], 8, ns[j], 8))
    && (forall i :: 0 <= i < |ns| ==> 0 < ns[i] && ns[i] + 8 <= LIMIT)
  }

  /** The nodes at `ns`, head first, are linked into a circle in that order. */
  ghost predicate Ring(mem: Memory, ns: seq<nat>) {
    && |ns| >= 1
    && (forall i, j :: 0 <= i && i + 1 == j && j < |ns| ==> Linked(mem, ns[i], ns[j]))
    && Linked(mem, ns[|ns| - 1], ns[0])
  }

  function After(ns: seq<nat>, i: nat): nat
    requires i < |ns|
  {
    if i + 1 == |ns| then ns[0] else ns[i + 1]
  }

  function Inserted(ns: seq<nat>, i: nat, x: nat): seq<nat>
    requires i <= |ns|
  {
    ns[..i] + [x] + ns[i..]
  }

  function Removed(ns: seq<nat>, i: nat): seq<nat>
    requires i < |ns|
  {
    ns[..i] + ns[i + 1..]
  }

  lemma RingSame(mem: Memory, mem': Memory, ns: seq<nat>)
    requires Ring(mem, ns)
    requires forall i :: 0 <= i < |ns| ==> SameAt(mem, mem', ns[i], 8)
    ensures Ring(mem', ns)
  {
    forall i | 0 <= i < |ns|
      ensures Word(mem', ns[i]) == Word(mem, ns[i]) && Word(mem', ns[i] + 4) == Word(mem, ns[i] + 4)
    {
      SameWord(mem, mem', ns[i], 8, ns[i]);
      SameWord(mem, mem', ns[i], 8, ns[i] + 4);
    }
  }

  lemma RingLinked(mem: Memory, ns: seq<nat>, i: nat)
    requires Ring(mem, ns) && i < |ns|
    ensures Linked(mem, ns[i], After(ns, i))
  {
  }

  /** What a linking writes, and where. */
  lemma LinkWords(mem: Memory, at: nat, x: nat)
    requires at + 8 <= LIMIT && x + 8 <= LIMIT && Apart(at, 8, x, 8)
    requires var after := Word(mem, at + 4); after < LIMIT && Apart(after, 8, x, 8)
    requires var after := Word(mem, at + 4); after == at || Apart(after, 8, at, 8)
    ensures var m, after := Link(mem, at, x), Word(mem, at + 4);
            && Linked(m, at, x) && Linked(m, x, after)
            && Only(mem, m, x, 8, at + 4, 4, after, 4)
  {
    hide Word, ByteOf;
    var after := Word(mem, at + 4);
    var m1 := Put(mem, x, at);
    PutOther(mem, x, at, at + 4);
    var m2 := Put(m1, x + 4, after);
    PutOther(m1, x + 4, after, at + 4);
    var m3 := Put(m2, after, x);
    var m4 := Put(m3, at + 4, x);
    assert m4 == Link(mem, at, x);
    PutSame(mem, x, at);
    PutOther(m1, x + 4, after, x);
    PutOther(m2, after, x, x);
    PutOther(m3, at + 4, x, x);
    PutSame(m1, x + 4, after);
    PutOther(m2, after, x, x + 4);
    PutOther(m3, at + 4, x, x + 4);
    PutSame(m2, after, x);
    PutOther(m3, at + 4, x, after);
    PutSame(m3, at + 4, x);
  }

  lemma LinkKeepsRing(mem: Memory, ns: seq<nat>, i: nat, x: nat)
    requires Ring(mem, ns) && Spread(ns) && i < |ns| && Spread(Inserted(ns, i + 1, x))
    ensures Ring(Link(mem, ns[i], x), Inserted(ns, i + 1, x))
    ensures Only(mem, Link(mem, ns[i], x), x, 8, ns[i] + 4, 4, After(ns, i), 4)
  {
    hide Word, Link, Inserted, Only;
    var at, after, m := ns[i], After(ns, i), Link(mem, ns[i], x);
    NewNodeApart(ns, i, x);
    RingLinked(mem, ns, i);
    LinkWords(mem, at, x);
    forall k | 0 <= k < |ns| && k != i ensures Linked(m, ns[k], After(ns, k)) {
      RingLinked(mem, ns, k);
      OtherNodes(ns, i, k);
      OnlyApart(mem, m, x, 8, at + 4, 4, after, 4, ns[k] + 4, 4);
      OnlyApart(mem, m, x, 8, at + 4, 4, after, 4, After(ns, k), 4);
    }
    InsertedRing(m, ns, i, x);
  }

  lemma NewNodeApart(ns: seq<nat>, i: nat, x: nat)
    requires i < |ns| && Spread(Inserted(ns, i + 1, x))
    ensures x + 8 <= LIMIT && 0 < x
    ensures forall k :: 0 <= k < |ns| ==> Apart(ns[k], 8, x, 8)
  {
    var r := Inserted(ns, i + 1, x);
    assert r[i + 1] == x;
    forall k | 0 <= k < |ns| ensures Apart(ns[k], 8, x, 8) {
      assert ns[k] == r[if k <= i then k else k + 1];
    }
  }

  /** The links between other nodes than `i` and the one after it are in other words. */
  lemma OtherNodes(ns: seq<nat>, i: nat, k: nat)
    requires Spread(ns) && i < |ns| && k < |ns| && k != i
    ensures Apart(ns[k] + 4, 4, ns[i] + 4, 4) && Apart(ns[k] + 4, 4, After(ns, i), 4)
    ensures Apart(After(ns, k), 4, ns[i] + 4, 4) && Apart(After(ns, k), 4, After(ns, i), 4)
  {
    assert Apart(ns[k], 8, ns[i], 8);
  }

  lemma InsertedRing(m: Memory, ns: seq<nat>, i: nat, x: nat)
    requires i < |ns| && Linked(m, ns[i], x) && Linked(m, x, After(ns, i))
    requires forall k :: 0 <= k < |ns| && k != i ==> Linked(m, ns[k], After(ns, k))
    ensures Ring(m, Inserted(ns, i + 1, x))
  {
    hide Linked;
    var r := Inserted(ns, i + 1, x);
    forall k, l | 0 <= k && k + 1 == l && l < |r| ensures Linked(m, r[k], r[l]) {
      if k < i {
        assert Linked(m, ns[k], After(ns, k));
      } else if k > i + 1 {
        assert Linked(m, ns[k - 1], After(ns, k - 1));
      }
    }
    assert i + 1 < |ns| ==> Linked(m, ns[|ns| - 1], After(ns, |ns| - 1));
  }

  /** What an unlinking writes, and where. */
  lemma UnlinkWords(mem: Memory, x: nat)
    requires 0 < Word(mem, x) < LIMIT && 0 < Word(mem, x + 4) < LIMIT
    requires Apart(Word(mem, x), 8, x, 8) && Apart(Word(mem, x + 4), 8, x, 8)
    requires Word(mem, x) == Word(mem, x + 4) || Apart(Word(mem, x), 8, Word(mem, x + 4), 8)
    ensures var m, prev, after := Unlink(mem, x), Word(mem, x), Word(mem, x + 4);
            && Linked(m, prev, after)
            && Only(mem, m, x, 8, prev + 4, 4, after, 4)
  {
    hide Word, ByteOf;
    var prev, after := Word(mem, x), Word(mem, x + 4);
    var m1 := Put(mem, prev + 4, after);
    PutOther(mem, prev + 4, after, x);
    PutOther(mem, prev + 4, after, x + 4);
    var m2 := Put(m1, after, prev);
    var m3 := Put(m2, x, 0);
    var m4 := Put(m3, x + 4, 0);
    assert m4 == Unlink(mem, x);
    PutSame(mem, prev + 4, after);
    PutOther(m1, after, prev, prev + 4);
    PutOther(m2, x, 0, prev + 4);
    PutOther(m3, x + 4, 0, prev + 4);
    PutSame(m1, after, prev);
    PutOther(m2, x, 0, after);
    PutOther(m3, x + 4, 0, after);
  }

  lemma UnlinkKeepsRing(mem: Memory, ns: seq<nat>, i: nat)
    requires Ring(mem, ns) && Spread(ns) && 0 < i < |ns|
    ensures Ring(Unlink(mem, ns[i]), Removed(ns, i))
    ensures Word(mem, ns[i]) == ns[i - 1] && Word(mem, ns[i] + 4) == After(ns, i)
    ensures Only(mem, Unlink(mem, ns[i]), ns[i], 8, ns[i - 1] + 4, 4, After(ns, i), 4)
  {
    hide Word, Unlink, Removed, Only;
    var m := Unlink(mem, ns[i]);
    RingLinked(mem, ns, i - 1);
    RingLinked(mem, ns, i);
    assert Apart(ns[i - 1], 8, ns[i], 8);
    UnlinkWords(mem, ns[i]);
    forall k | 0 <= k < |ns| && k != i && k != i - 1 ensures Linked(m, ns[k], After(ns, k)) {
      RingLinked(mem, ns, k);
      RemovedWords(ns, i, k);
      OnlyApart(mem, m, ns[i], 8, ns[i - 1] + 4, 4, After(ns, i), 4, ns[k] + 4, 4);
      OnlyApart(mem, m, ns[i], 8, ns[i - 1] + 4, 4, After(ns, i), 4, After(ns, k), 4);
    }
    RemovedRing(m, ns, i);
  }

  lemma RemovedWords(ns: seq<nat>, i: nat, k: nat)
    requires Spread(ns) && 0 < i < |ns| && k < |ns| && k != i && k != i - 1
    ensures Apart(ns[k] + 4, 4, ns[i], 8) && Apart(After(ns, k), 4, ns[i], 8)
    ensures Apart(ns[k] + 4, 4, ns[i - 1] + 4, 4) && Apart(After(ns, k), 4, ns[i - 1] + 4, 4)
    ensures Apart(ns[k] + 4, 4, After(ns, i), 4) && Apart(After(ns, k), 4, After(ns, i), 4)
  {
    assert Apart(ns[k], 8, ns[i], 8) && Apart(ns[k], 8, ns[i - 1], 8);
  }

  lemma RemovedRing(m: Memory, ns: seq<nat>, i: nat)
    requires 0 < i < |ns| && Linked(m, ns[i - 1], After(ns, i))
    requires forall k :: 0 <= k < |ns| && k != i && k != i - 1 ==> Linked(m, ns[k], After(ns, k))
    ensures Ring(m, Removed(ns, i))
  {
    hide Linked;
    var r := Removed(ns, i);
    forall k, l | 0 <= k && k + 1 == l && l < |r| ensures Linked(m, r[k], r[l]) {
      if k < i - 1 {
        assert Linked(m, ns[k], After(ns, k));
      } else if k > i - 1 {
        assert Linked(m, ns[k + 1], After(ns, k + 1));
      }
    }
    assert i + 1 < |ns| ==> Linked(m, ns[|ns| - 1], After(ns, |ns| - 1));
  }

  // ----- Headers -----

  /** Where the links are in a header, behind pointer, size and flag. */
  const NODE: nat := 12

  function Nodes(head: nat, s: seq<Block>): (ns: seq<nat>)
    ensures |ns| == |s| + 1 && ns[0] == head
    ensures forall j :: 1 <= j < |ns| ==> ns[j] == s[j - 1].base + NODE
  {
    [head] + seq(|s|, i requires 0 <= i < |s| => s[i].base + NODE)
  }

  ghost predicate Fields(mem: Memory, x: Block) {
    && Word(mem, x.base) == x.base + HEADER
    && Word(mem, x.base + 4) + HEADER == x.size
    && mem(x.base + 8) == if x.tag then 1 else 0
  }

  /** The headers in memory are those of the blocks `s`, linked in that order. */
  ghost predicate Encodes(mem: Memory, head: nat, s: seq<Block>) {
    Ring(mem, Nodes(head, s)) && forall i :: 0 <= i < |s| ==> Fields(mem, s[i])
  }

  /** The list head lies outside the heap, and the heap in the address space. */
  ghost predicate Placed(head: nat, lo: nat, hi: nat) {
    0 < head && head + 8 <= LIMIT && lo <= hi < LIMIT && Apart(head, 8, lo, hi - lo)
  }

  /** `a` is a byte of the list head or of a header. */
  predicate Kernel(head: nat, s: seq<Block>, a: nat) {
    head <= a < head + 8 || exists x :: x in s && x.base <= a < x.base + HEADER
  }

  ghost predicate Untouched(mem: Memory, mem': Memory, head: nat, s: seq<Block>) {
    forall a: nat :: !Kernel(head, s, a) ==> mem'(a) == mem(a)
  }

  lemma FieldsSame(mem: Memory, mem': Memory, x: Block)
    requires Fields(mem, x) && SameAt(mem, mem', x.base, 9)
    ensures Fields(mem', x)
  {
    SameWord(mem, mem', x.base, 9, x.base);
    SameWord(mem, mem', x.base, 9, x.base + 4);
  }

  lemma HeadersApart(lo: nat, hi: nat, s: seq<Block>, i: nat, j: nat)
    requires Tiles(lo, hi, s) && WellSized(s) && i < |s| && j < |s| && i != j
    ensures Apart(s[i].base, s[i].size, s[j].base, s[j].size)
    ensures s[i].size >= HEADER && s[j].size >= HEADER
  {
    assert s[i] in s && s[j] in s;
    if i < j {
      TilesOrdered(lo, hi, s, i, j);
    } else {
      TilesOrdered(lo, hi, s, j, i);
    }
  }

  lemma BlockInside(lo: nat, hi: nat, s: seq<Block>, i: nat)
    requires Tiles(lo, hi, s) && WellSized(s) && i < |s|
    ensures lo <= s[i].base && s[i].size >= HEADER && s[i].base + s[i].size <= hi
  {
    assert s[i] in s;
    TilesAt(lo, hi, s, i);
  }

  lemma NodesSpread(lo: nat, hi: nat, head: nat, s: seq<Block>)
    requires Tiles(lo, hi, s) && WellSized(s) && Placed(head, lo, hi)
    ensures Spread(Nodes(head, s))
  {
    hide Tiles, WellSized;
    var ns := Nodes(head, s);
    forall i | 0 <= i < |ns| ensures 0 < ns[i] && ns[i] + 8 <= LIMIT {
      if i > 0 { BlockInside(lo, hi, s, i - 1); }
    }
    forall i, j | 0 <= i < j < |ns| ensures Apart(ns[i], 8, ns[j], 8) {
      BlockInside(lo, hi, s, j - 1);
      if i > 0 { HeadersApart(lo, hi, s, i - 1, j - 1); }
    }
  }

  /** The fields of a header share no byte with links. */
  lemma FieldsVsNodes(lo: nat, hi: nat, head: nat, s: seq<Block>)
    requires Tiles(lo, hi, s) && WellSized(s) && Placed(head, lo, hi)
    ensures forall i, j :: 0 <= i < |s| && 0 <= j <= |s| ==> Apart(s[i].base, 9, Nodes(head, s)[j], 8)
  {
    hide Tiles, WellSized;
    forall i, j | 0 <= i < |s| && 0 <= j <= |s| ensures Apart(s[i].base, 9, Nodes(head, s)[j], 8) {
      BlockInside(lo, hi, s, i);
      if j > 0 && j - 1 != i { HeadersApart(lo, hi, s, i, j - 1); }
    }
  }

  lemma NodesAreKernel(head: nat, s: seq<Block>)
    ensures forall a: nat, j :: 0 <= j <= |s| && !Apart(a, 1, Nodes(head, s)[j], 8) ==> Kernel(head, s, a)
  {
    forall a: nat, j | 0 <= j <= |s| && !Apart(a, 1, Nodes(head, s)[j], 8) ensures Kernel(head, s, a) {
      if j > 0 { assert s[j - 1] in s; }
    }
  }

  // ----- Marking a block -----

  function Mark(mem: Memory, x: nat, free: bool): Memory {
    PutByte(mem, x + 8, if free then 1 else 0)
  }

  lemma MarkEncodes(lo: nat, hi: nat, head: nat, mem: Memory, s: seq<Block>, i: nat, free: bool)
    requires Tiles(lo, hi, s) && WellSized(s) && Placed(head, lo, hi) && Encodes(mem, head, s) && i < |s|
    ensures var t := s[i := s[i].(tag := free)];
            Encodes(Mark(mem, s[i].base, free), head, t) && Nodes(head, t) == Nodes(head, s)
    ensures Untouched(mem, Mark(mem, s[i].base, free), head, s)
  {
    hide Tiles, WellSized, Word;
    var m, t := Mark(mem, s[i].base, free), s[i := s[i].(tag := free)];
    assert Nodes(head, t) == Nodes(head, s);
    FieldsVsNodes(lo, hi, head, s);
    RingSame(mem, m, Nodes(head, s));
    forall j | 0 <= j < |t| ensures Fields(m, t[j]) {
      if j == i {
        assert SameAt(mem, m, s[i].base, 8);
        SameWord(mem, m, s[i].base, 8, s[i].base);
        SameWord(mem, m, s[i].base, 8, s[i].base + 4);
      } else {
        HeadersApart(lo, hi, s, i, j);
        FieldsSame(mem, m, s[j]);
      }
    }
    assert s[i] in s;
  }

  // ----- kmalloc_split -----

  /** Writes the header that a split makes, with `left` bytes behind it, and the new size of
      the block in front of it. */
  function NewHeader(mem: Memory, x: nat, n: nat, left: nat): Memory {
    var y := x + HEADER + n;
    var m1 := Put(mem, y + 4, left);
    var m2 := Put(m1, y, y + HEADER);
    var m3 := PutByte(m2, y + 8, 1);
    Put(m3, x + 4, n)
  }

  /** The bytes that splitting a block leaves behind the new header. */
  function Left(size: nat, n: nat): nat
    requires size >= n + HEADER + HEADER
  {
    size - n - HEADER - HEADER
  }

  function Cut(mem: Memory, x: nat, n: nat, left: nat): Memory {
    Link(NewHeader(mem, x, n, left), x + NODE, x + HEADER + n + NODE)
  }

  /** Takes the block at `x` into use, cut to `n` bytes if more than a header is left over. */
  function Split(mem: Memory, x: nat, n: nat): Memory {
    var m := Mark(mem, x, false);
    var size := Word(m, x + 4);
    if size > n + HEADER then Cut(m, x, n, size - n - HEADER) else m
  }

  /** What the new header holds, and where it is written. */
  lemma NewHeaderFields(mem: Memory, x: Block, n: nat)
    requires Fields(mem, x) && x.size > n + HEADER + HEADER && x.base + x.size <= LIMIT && !x.tag
    ensures var m := NewHeader(mem, x.base, n, Left(x.size, n));
            && Fields(m, KernelHeap.Pieces(x, n)[0]) && Fields(m, KernelHeap.Pieces(x, n)[1])
            && Only(mem, m, x.base + 4, 4, x.base + HEADER + n, 9, 0, 0)
  {
    hide Word, ByteOf;
    var a := x.base;
    var y := a + HEADER + n;
    var left := Left(x.size, n);
    var m1 := Put(mem, y + 4, left);
    var m2 := Put(m1, y, y + HEADER);
    var m3 := PutByte(m2, y + 8, 1);
    var m4 := Put(m3, a + 4, n);
    assert m4 == NewHeader(mem, a, n, left);
    PutSame(mem, y + 4, left);
    PutOther(m1, y, y + HEADER, y + 4);
    PutSame(m1, y, y + HEADER);
    assert SameAt(m2, m3, y, 8) && SameAt(m3, m4, y, 8);
    SameWord(m2, m3, y, 8, y);
    SameWord(m2, m3, y, 8, y + 4);
    SameWord(m3, m4, y, 8, y);
    SameWord(m3, m4, y, 8, y + 4);
    PutSame(m3, a + 4, n);
    assert SameAt(mem, m4, a, 4);
    SameWord(mem, m4, a, 4, a);
  }

  lemma SplitNodes(head: nat, s: seq<Block>, i: nat, n: nat)
    requires i < |s| && s[i].size > n + HEADER + HEADER
    ensures Nodes(head, SplitAt(s, i, n)) == Inserted(Nodes(head, s), i + 2, s[i].base + HEADER + n + NODE)
  {
    var t, ns := SplitAt(s, i, n), Nodes(head, s);
    var r := Inserted(ns, i + 2, s[i].base + HEADER + n + NODE);
    assert |Nodes(head, t)| == |r|;
    forall j | 0 <= j < |r| ensures Nodes(head, t)[j] == r[j] {
    }
  }

  lemma SplitEncodes(lo: nat, hi: nat, head: nat, mem: Memory, s: seq<Block>, i: nat, n: nat)
    requires Inv(lo, hi, s) && Placed(head, lo, hi) && Encodes(mem, head, s)
    requires i < |s| && s[i].tag && s[i].size >= HEADER + n
    ensures Encodes(Split(mem, s[i].base, n), head, SplitAt(s, i, n))
    ensures Untouched(mem, Split(mem, s[i].base, n), head, SplitAt(s, i, n))
  {
    hide Word, Link, Tiles, Coalesced, NewHeader, Ring, Encodes, Fields, Untouched, Kernel, Mark, SplitAt, Placed;
    var x, m, u := s[i].base, Mark(mem, s[i].base, false), s[i := s[i].(tag := false)];
    MarkEncodes(lo, hi, head, mem, s, i, false);
    RetagTiles(lo, hi, s, i, false);
    FieldsAt(m, head, u, i);
    SplitHeaders(head, s, i, n);
    if s[i].size > n + HEADER + HEADER {
      CutEncodes(lo, hi, head, m, s, u, i, n);
      UntouchedThen(mem, m, Split(mem, x, n), head, s, SplitAt(s, i, n));
    } else {
      SplitWhole(s, i, n);
      UntouchedThen(mem, m, m, head, s, u);
    }
  }

  lemma FieldsAt(mem: Memory, head: nat, s: seq<Block>, i: nat)
    requires Encodes(mem, head, s) && i < |s|
    ensures Fields(mem, s[i]) && Word(mem, s[i].base + 4) + HEADER == s[i].size
  {
  }

  lemma SplitWhole(s: seq<Block>, i: nat, n: nat)
    requires i < |s| && HEADER + n <= s[i].size <= n + HEADER + HEADER
    ensures SplitAt(s, i, n) == s[i := s[i].(tag := false)]
  {
  }

  lemma UntouchedThen(m: Memory, m': Memory, m'': Memory, head: nat, s: seq<Block>, t: seq<Block>)
    requires Untouched(m, m', head, s) && (m' == m'' || Untouched(m', m'', head, t))
    requires forall a: nat :: Kernel(head, s, a) ==> Kernel(head, t, a)
    ensures Untouched(m, m'', head, t)
  {
    hide Kernel;
  }

  /** The headers that were there are still headers. */
  lemma SplitHeaders(head: nat, s: seq<Block>, i: nat, n: nat)
    requires i < |s| && s[i].size >= HEADER + n
    ensures forall a: nat :: Kernel(head, s, a) ==> Kernel(head, SplitAt(s, i, n), a)
  {
    var t := SplitAt(s, i, n);
    var d := |KernelHeap.Pieces(s[i], n)| - 1;
    forall a: nat | Kernel(head, s, a) ensures Kernel(head, t, a) {
      if !(head <= a < head + 8) {
        var k :| 0 <= k < |s| && s[k].base <= a < s[k].base + HEADER;
        var y := t[if k <= i then k else k + d];
        assert y in t && y.base == s[k].base;
      }
    }
  }

  lemma CutEncodes(lo: nat, hi: nat, head: nat, mem: Memory, s: seq<Block>, u: seq<Block>, i: nat, n: nat)
    requires i < |s| && s[i].tag && s[i].size > n + HEADER + HEADER
    requires Inv(lo, hi, s) && Placed(head, lo, hi)
    requires u == s[i := s[i].(tag := false)] && Encodes(mem, head, u)
    ensures var m := Cut(mem, s[i].base, n, Left(s[i].size, n));
            Encodes(m, head, SplitAt(s, i, n)) && Untouched(mem, m, head, SplitAt(s, i, n))
  {
    hide *;
    var x, t, left := s[i].base, SplitAt(s, i, n), Left(s[i].size, n);
    var m1, m2 := NewHeader(mem, x, n, left), Cut(mem, x, n, left);
    InvParts(lo, hi, s);
    SplitKeepsInv(lo, hi, s, i, n);
    InvParts(lo, hi, t);
    BlockInside(lo, hi, s, i);
    PlacedLimit(head, lo, hi);
    EncodesParts(mem, head, u);
    SameNodes(head, s, u);
    NewHeaderFields(mem, u[i], n);
    CutRing(lo, hi, head, mem, s, i, n);
    forall j | 0 <= j < |t| ensures Fields(m2, t[j]) {
      NewHeaderOthers(lo, hi, mem, s, u, i, n, j);
      CutFields(lo, hi, head, m1, m2, s, i, n, j);
    }
    EncodesFrom(m2, head, t);
    CutElsewhere(head, mem, m1, m2, s, i, n);
  }

  lemma InvParts(lo: nat, hi: nat, s: seq<Block>)
    requires Inv(lo, hi, s)
    ensures Tiles(lo, hi, s) && WellSized(s)
  {
  }

  lemma EncodesParts(mem: Memory, head: nat, s: seq<Block>)
    requires Encodes(mem, head, s)
    ensures Ring(mem, Nodes(head, s))
    ensures forall i :: 0 <= i < |s| ==> Fields(mem, s[i])
  {
  }

  lemma EncodesFrom(mem: Memory, head: nat, s: seq<Block>)
    requires Ring(mem, Nodes(head, s))
    requires forall i :: 0 <= i < |s| ==> Fields(mem, s[i])
    ensures Encodes(mem, head, s)
  {
  }

  lemma SameNodes(head: nat, s: seq<Block>, t: seq<Block>)
    requires |s| == |t| && forall i :: 0 <= i < |s| ==> s[i].base == t[i].base
    ensures Nodes(head, s) == Nodes(head, t)
  {
  }

  lemma CutElsewhere(head: nat, mem: Memory, m1: Memory, m2: Memory, s: seq<Block>, i: nat, n: nat)
    requires i < |s| && s[i].size > n + HEADER + HEADER
    requires Only(mem, m1, s[i].base + 4, 4, s[i].base + HEADER + n, 9, 0, 0)
    requires Only(m1, m2, s[i].base + HEADER + n + NODE, 8, s[i].base + NODE + 4, 4, After(Nodes(head, s), i + 1), 4)
    ensures Untouched(mem, m2, head, SplitAt(s, i, n))
  {
    hide Only, Kernel, SplitAt;
    var x, y, ns := s[i].base, s[i].base + HEADER + n, Nodes(head, s);
    forall a: nat | !Kernel(head, SplitAt(s, i, n), a) ensures m2(a) == mem(a) {
      CutUntouched(head, s, i, n, a);
      OnlyApart(mem, m1, x + 4, 4, y, 9, 0, 0, a, 1);
      OnlyApart(m1, m2, y + NODE, 8, x + NODE + 4, 4, After(ns, i + 1), 4, a, 1);
    }
  }

  lemma PlacedLimit(head: nat, lo: nat, hi: nat)
    requires Placed(head, lo, hi)
    ensures hi <= LIMIT
  {
  }

  lemma CutRing(lo: nat, hi: nat, head: nat, mem: Memory, s: seq<Block>, i: nat, n: nat)
    requires i < |s| && s[i].size > n + HEADER + HEADER
    requires Tiles(lo, hi, s) && WellSized(s) && Placed(head, lo, hi)
    requires Tiles(lo, hi, SplitAt(s, i, n)) && WellSized(SplitAt(s, i, n))
    requires Only(mem, NewHeader(mem, s[i].base, n, Left(s[i].size, n)),
                  s[i].base + 4, 4, s[i].base + HEADER + n, 9, 0, 0)
    requires Ring(mem, Nodes(head, s))
    ensures var m := NewHeader(mem, s[i].base, n, Left(s[i].size, n));
            var x, y := s[i].base + NODE, s[i].base + HEADER + n + NODE;
            && Ring(Link(m, x, y), Nodes(head, SplitAt(s, i, n)))
            && Only(m, Link(m, x, y), y, 8, x + 4, 4, After(Nodes(head, s), i + 1), 4)
            && Link(m, x, y) == Cut(mem, s[i].base, n, Left(s[i].size, n))
  {
    hide *;
    var m := NewHeader(mem, s[i].base, n, Left(s[i].size, n));
    NewHeaderRing(lo, hi, head, mem, s, i, n);
    SplitNodes(head, s, i, n);
    NodesSpread(lo, hi, head, s);
    NodesSpread(lo, hi, head, SplitAt(s, i, n));
    LinkKeepsRing(m, Nodes(head, s), i + 1, s[i].base + HEADER + n + NODE);
    CutIs(mem, s[i].base, n, Left(s[i].size, n));
  }

  lemma CutIs(mem: Memory, x: nat, n: nat, left: nat)
    ensures Cut(mem, x, n, left) == Link(NewHeader(mem, x, n, left), x + NODE, x + HEADER + n + NODE)
  {
    hide Link, NewHeader;
  }

  lemma CutFields(lo: nat, hi: nat, head: nat, m: Memory, m': Memory, s: seq<Block>, i: nat, n: nat, j: nat)
    requires i < |s| && s[i].size > n + HEADER + HEADER && Placed(head, lo, hi)
    requires Tiles(lo, hi, SplitAt(s, i, n)) && WellSized(SplitAt(s, i, n))
    requires Only(m, m', s[i].base + HEADER + n + NODE, 8, s[i].base + NODE + 4, 4, After(Nodes(head, s), i + 1), 4)
    requires j < |SplitAt(s, i, n)| && Fields(m, SplitAt(s, i, n)[j])
    ensures Fields(m', SplitAt(s, i, n)[j])
  {
    hide Word, Tiles, Only, SplitAt, Placed, WellSized, Fields, SameAt;
    var t, ns := SplitAt(s, i, n), Nodes(head, s);
    FieldsVsNodes(lo, hi, head, t);
    LinkedNodes(head, s, i, n);
    OnlyApart(m, m', s[i].base + HEADER + n + NODE, 8, s[i].base + NODE + 4, 4, After(ns, i + 1), 4, t[j].base, 9);
    FieldsSame(m, m', t[j]);
  }

  /** The nodes that the linking writes are nodes of the new list. */
  lemma LinkedNodes(head: nat, s: seq<Block>, i: nat, n: nat)
    requires i < |s| && s[i].size > n + HEADER + HEADER
    ensures var ns, t := Nodes(head, s), Nodes(head, SplitAt(s, i, n));
            && |t| == |s| + 2 && t[i + 1] == ns[i + 1] && t[i + 2] == s[i].base + HEADER + n + NODE
            && After(ns, i + 1) == (if i + 1 == |s| then t[0] else t[i + 3])
  {
    SplitNodes(head, s, i, n);
  }

  lemma CutUntouched(head: nat, s: seq<Block>, i: nat, n: nat, a: nat)
    requires i < |s| && s[i].size > n + HEADER + HEADER && !Kernel(head, SplitAt(s, i, n), a)
    ensures Apart(a, 1, s[i].base + 4, 4) && Apart(a, 1, s[i].base + HEADER + n, 9)
    ensures Apart(a, 1, s[i].base + HEADER + n + NODE, 8) && Apart(a, 1, s[i].base + NODE + 4, 4)
    ensures Apart(a, 1, After(Nodes(head, s), i + 1), 4)
  {
    var t := SplitAt(s, i, n);
    LinkedNodes(head, s, i, n);
    NodesAreKernel(head, t);
    SplitBase(s, i, n);
    assert t[i] in t && t[i + 1] in t;
    assert t[i + 1] == KernelHeap.Pieces(s[i], n)[1];
  }

  lemma NewHeaderRing(lo: nat, hi: nat, head: nat, mem: Memory, s: seq<Block>, i: nat, n: nat)
    requires Tiles(lo, hi, s) && WellSized(s) && Placed(head, lo, hi) && i < |s|
    requires s[i].size > n + HEADER + HEADER
    requires Only(mem, NewHeader(mem, s[i].base, n, Left(s[i].size, n)),
                  s[i].base + 4, 4, s[i].base + HEADER + n, 9, 0, 0)
    requires Ring(mem, Nodes(head, s))
    ensures Ring(NewHeader(mem, s[i].base, n, Left(s[i].size, n)), Nodes(head, s))
  {
    hide Tiles, WellSized, Ring, Word, NewHeader, SameAt, Only;
    var m, ns := NewHeader(mem, s[i].base, n, Left(s[i].size, n)), Nodes(head, s);
    BlockInside(lo, hi, s, i);
    forall j | 0 <= j < |ns| ensures SameAt(mem, m, ns[j], 8) {
      if j > 0 && j - 1 != i { HeadersApart(lo, hi, s, i, j - 1); }
      OnlyApart(mem, m, s[i].base + 4, 4, s[i].base + HEADER + n, 9, 0, 0, ns[j], 8);
    }
    RingSame(mem, m, ns);
  }

  lemma NewHeaderOthers(lo: nat, hi: nat, mem: Memory, s: seq<Block>, u: seq<Block>, i: nat, n: nat, j: nat)
    requires Tiles(lo, hi, s) && WellSized(s) && i < |s| && s[i].size > n + HEADER + HEADER
    requires u == s[i := s[i].(tag := false)] && forall k :: 0 <= k < |u| ==> Fields(mem, u[k])
    requires s[i].base + s[i].size <= LIMIT && j < |SplitAt(s, i, n)|
    ensures Fields(NewHeader(mem, s[i].base, n, Left(s[i].size, n)), SplitAt(s, i, n)[j])
  {
    hide Tiles, WellSized, Word, NewHeader, SameAt, Fields, Only;
    var t, m := SplitAt(s, i, n), NewHeader(mem, s[i].base, n, Left(s[i].size, n));
    assert Fields(mem, u[i]);
    NewHeaderFields(mem, u[i], n);
    if j < i {
      HeadersApart(lo, hi, s, i, j);
      assert t[j] == u[j] && Fields(mem, u[j]);
      OnlyApart(mem, m, s[i].base + 4, 4, s[i].base + HEADER + n, 9, 0, 0, u[j].base, 9);
      FieldsSame(mem, m, u[j]);
    } else if j > i + 1 {
      HeadersApart(lo, hi, s, i, j - 1);
      assert t[j] == u[j - 1] && Fields(mem, u[j - 1]);
      OnlyApart(mem, m, s[i].base + 4, 4, s[i].base + HEADER + n, 9, 0, 0, u[j - 1].base, 9);
      FieldsSame(mem, m, u[j - 1]);
    } else {
      assert t[j] == KernelHeap.Pieces(u[i], n)[j - i];
    }
  }

  // ----- kmerge -----

  /** The block at `x` takes over its right neighbour at `y`. */
  function JoinBlocks(mem: Memory, x: nat, y: nat): Memory {
    Unlink(Put(mem, x + 4, Word(mem, x + 4) + Word(mem, y + 4) + HEADER), y + NODE)
  }

  function MergeNextIn(mem: Memory, head: nat, x: nat): Memory {
    var next := Word(mem, x + NODE + 4);
    var y := Minus(next, NODE);
    if next != head && mem(y + 8) != 0 && y == x + HEADER + Word(mem, x + 4) then JoinBlocks(mem, x, y) else mem
  }

  function MergePrevIn(mem: Memory, head: nat, x: nat): Memory {
    var prev := Word(mem, x + NODE);
    var y := Minus(prev, NODE);
    if prev != head && mem(y + 8) != 0 && x == y + HEADER + Word(mem, y + 4) then JoinBlocks(mem, y, x) else mem
  }

  /** In front of the bytes of every block stands its pointer. */
  ghost predicate PointersIn(mem: Memory, s: seq<Block>) {
    forall i :: 0 <= i < |s| ==> Word(mem, s[i].base) == s[i].base + HEADER
  }

  lemma JoinNodes(head: nat, s: seq<Block>, k: nat, tag: bool)
    requires k + 1 < |s|
    ensures Nodes(head, JoinNext(s, k, tag)) == Removed(Nodes(head, s), k + 2)
  {
    var t, ns := JoinNext(s, k, tag), Nodes(head, s);
    var r := Removed(ns, k + 2);
    assert |Nodes(head, t)| == |r|;
    forall j | 0 <= j < |r| ensures Nodes(head, t)[j] == r[j] {
      if j > k + 1 { assert t[j - 1] == s[j]; }
    }
  }

  lemma JoinEncodes(lo: nat, hi: nat, head: nat, mem: Memory, s: seq<Block>, k: nat)
    requires Tiles(lo, hi, s) && WellSized(s) && Placed(head, lo, hi) && Encodes(mem, head, s) && k + 1 < |s|
    ensures var m := JoinBlocks(mem, s[k].base, s[k + 1].base);
            Encodes(m, head, JoinNext(s, k, s[k].tag)) && Untouched(mem, m, head, s) && PointersIn(m, s)
  {
    hide *;
    var t, ns := JoinNext(s, k, s[k].tag), Nodes(head, s);
    EncodesParts(mem, head, s);
    JoinBlocksIs(mem, s[k], s[k + 1]);
    var size := s[k].size + s[k + 1].size - HEADER;
    var m1 := Put(mem, s[k].base + 4, size);
    var m2 := Unlink(m1, s[k + 1].base + NODE);
    ResizedRing(lo, hi, head, mem, s, k, size);
    NodesSpread(lo, hi, head, s);
    JoinNodes(head, s, k, s[k].tag);
    UnlinkKeepsRing(m1, ns, k + 2);
    forall j | 0 <= j < |t| ensures Fields(m2, t[j]) {
      ResizedFields(lo, hi, head, mem, s, k, j);
      UnlinkFields(lo, hi, head, m1, m2, s, k, j);
    }
    EncodesFrom(m2, head, t);
    JoinElsewhere(head, mem, s, k, size);
    JoinPointers(lo, hi, head, mem, s, k, size);
  }

  lemma JoinPointers(lo: nat, hi: nat, head: nat, mem: Memory, s: seq<Block>, k: nat, size: nat)
    requires Tiles(lo, hi, s) && WellSized(s) && Placed(head, lo, hi) && k + 1 < |s|
    requires forall i :: 0 <= i < |s| ==> Fields(mem, s[i])
    requires var m, ns := Put(mem, s[k].base + 4, size), Nodes(head, s);
             Only(m, Unlink(m, ns[k + 2]), ns[k + 2], 8, ns[k + 1] + 4, 4, After(ns, k + 2), 4)
    ensures PointersIn(Unlink(Put(mem, s[k].base + 4, size), s[k + 1].base + NODE), s)
  {
    hide Word, Tiles, Only, Placed, WellSized, Unlink, Put;
    var m, ns := Put(mem, s[k].base + 4, size), Nodes(head, s);
    FieldsVsNodes(lo, hi, head, s);
    forall j | 0 <= j < |s| ensures Word(Unlink(m, ns[k + 2]), s[j].base) == s[j].base + HEADER {
      if j != k { HeadersApart(lo, hi, s, k, j); }
      PutOther(mem, s[k].base + 4, size, s[j].base);
      OnlyApart(m, Unlink(m, ns[k + 2]), ns[k + 2], 8, ns[k + 1] + 4, 4, After(ns, k + 2), 4, s[j].base, 4);
    }
  }

  lemma JoinBlocksIs(mem: Memory, x: Block, y: Block)
    requires Fields(mem, x) && Fields(mem, y)
    ensures x.size >= HEADER && y.size >= HEADER
    ensures JoinBlocks(mem, x.base, y.base) == Unlink(Put(mem, x.base + 4, x.size + y.size - HEADER), y.base + NODE)
  {
    hide Unlink, Put;
  }

  lemma ResizedRing(lo: nat, hi: nat, head: nat, mem: Memory, s: seq<Block>, k: nat, size: nat)
    requires Tiles(lo, hi, s) && WellSized(s) && Placed(head, lo, hi) && k < |s| && Ring(mem, Nodes(head, s))
    ensures Ring(Put(mem, s[k].base + 4, size), Nodes(head, s))
  {
    hide Tiles, WellSized, Placed, Ring, Put, Word;
    var ns := Nodes(head, s);
    FieldsVsNodes(lo, hi, head, s);
    forall j | 0 <= j < |ns| ensures SameAt(mem, Put(mem, s[k].base + 4, size), ns[j], 8) {
      PutApart(mem, s[k].base + 4, size, ns[j], 8);
    }
    RingSame(mem, Put(mem, s[k].base + 4, size), ns);
  }

  lemma ResizedFields(lo: nat, hi: nat, head: nat, mem: Memory, s: seq<Block>, k: nat, j: nat)
    requires Tiles(lo, hi, s) && WellSized(s) && k + 1 < |s| && Placed(head, lo, hi)
    requires forall i :: 0 <= i < |s| ==> Fields(mem, s[i])
    requires j < |JoinNext(s, k, s[k].tag)|
    ensures s[k].size + s[k + 1].size >= HEADER
    ensures Fields(Put(mem, s[k].base + 4, s[k].size + s[k + 1].size - HEADER), JoinNext(s, k, s[k].tag)[j])
  {
    hide Tiles, WellSized, Word, JoinNext;
    BlockInside(lo, hi, s, k);
    BlockInside(lo, hi, s, k + 1);
    var size := s[k].size + s[k + 1].size - HEADER;
    var m, a := Put(mem, s[k].base + 4, size), s[k].base;
    if j == k {
      HeadersApart(lo, hi, s, k, k + 1);
      PutSame(mem, a + 4, size);
      PutOther(mem, a + 4, size, a);
    } else {
      var i := if j < k then j else j + 1;
      HeadersApart(lo, hi, s, k, i);
      PutApart(mem, a + 4, size, s[i].base, 9);
      FieldsSame(mem, m, s[i]);
    }
  }

  lemma UnlinkFields(lo: nat, hi: nat, head: nat, m: Memory, m': Memory, s: seq<Block>, k: nat, j: nat)
    requires Tiles(lo, hi, s) && WellSized(s) && Placed(head, lo, hi) && k + 1 < |s|
    requires var ns := Nodes(head, s); Only(m, m', ns[k + 2], 8, ns[k + 1] + 4, 4, After(ns, k + 2), 4)
    requires j < |JoinNext(s, k, s[k].tag)| && Fields(m, JoinNext(s, k, s[k].tag)[j])
    ensures Fields(m', JoinNext(s, k, s[k].tag)[j])
  {
    hide Word, Tiles, Only, Placed, WellSized, Fields, SameAt;
    var t, ns, i := JoinNext(s, k, s[k].tag), Nodes(head, s), if j <= k then j else j + 1;
    FieldsVsNodes(lo, hi, head, s);
    assert t[j].base == s[i].base;
    OnlyApart(m, m', ns[k + 2], 8, ns[k + 1] + 4, 4, After(ns, k + 2), 4, s[i].base, 9);
    FieldsSame(m, m', t[j]);
  }

  lemma JoinElsewhere(head: nat, mem: Memory, s: seq<Block>, k: nat, size: nat)
    requires k + 1 < |s|
    requires var m, ns := Put(mem, s[k].base + 4, size), Nodes(head, s);
             Only(m, Unlink(m, ns[k + 2]), ns[k + 2], 8, ns[k + 1] + 4, 4, After(ns, k + 2), 4)
    ensures Untouched(mem, Unlink(Put(mem, s[k].base + 4, size), s[k + 1].base + NODE), head, s)
  {
    hide Only, Kernel, Word, Unlink;
    var m, ns := Put(mem, s[k].base + 4, size), Nodes(head, s);
    NodesAreKernel(head, s);
    forall a: nat | !Kernel(head, s, a) ensures Unlink(m, ns[k + 2])(a) == mem(a) {
      OutsideHeaders(head, s, k, a);
      OnlyApart(m, Unlink(m, ns[k + 2]), ns[k + 2], 8, ns[k + 1] + 4, 4, After(ns, k + 2), 4, a, 1);
    }
  }

  lemma OutsideHeaders(head: nat, s: seq<Block>, k: nat, a: nat)
    requires k < |s| && !Kernel(head, s, a)
    ensures Apart(a, 1, s[k].base, HEADER)
  {
    assert s[k] in s;
  }

  /** The links of a header lead to its neighbours in the list. */
  lemma Neighbours(lo: nat, hi: nat, head: nat, mem: Memory, s: seq<Block>, i: nat)
    requires Tiles(lo, hi, s) && WellSized(s) && Placed(head, lo, hi) && Encodes(mem, head, s) && i < |s|
    ensures Word(mem, s[i].base + NODE + 4) == After(Nodes(head, s), i + 1)
    ensures Word(mem, s[i].base + NODE) == Nodes(head, s)[i]
    ensures s[i].base + NODE != head
  {
    hide Tiles, WellSized, Word, Fields;
    var ns := Nodes(head, s);
    RingLinked(mem, ns, i);
    RingLinked(mem, ns, i + 1);
    BlockInside(lo, hi, s, i);
  }

  lemma MergeNextEncodes(lo: nat, hi: nat, head: nat, mem: Memory, s: seq<Block>, i: nat)
    requires Tiles(lo, hi, s) && WellSized(s) && Placed(head, lo, hi) && Encodes(mem, head, s) && i < |s|
    ensures var t, m := MergeNext(s, i), MergeNextIn(mem, head, s[i].base);
            && Tiles(lo, hi, t) && WellSized(t) && t[i].base == s[i].base
            && Encodes(m, head, t) && Untouched(mem, m, head, s) && PointersIn(m, s)
            && forall a: nat :: Kernel(head, t, a) ==> Kernel(head, s, a)
  {
    hide Tiles, WellSized, Placed, JoinBlocks, Kernel, Untouched, Encodes, JoinNext, PointersIn, MergeNextIn;
    EncodesPointers(mem, head, s);
    UntouchedSelf(mem, head, s);
    MergeNextTest(lo, hi, head, mem, s, i);
    if i + 1 < |s| && s[i + 1].tag && s[i].End() == s[i + 1].base {
      JoinEncodes(lo, hi, head, mem, s, i);
      JoinTiles(lo, hi, s, i, s[i].tag);
      JoinWellSized(s, i, s[i].tag);
      JoinIndex(s, i, s[i].tag);
      JoinHeaders(head, s, i);
    }
  }

  /** The test on the bytes of the neighbour is the test on the list. */
  lemma MergeNextTest(lo: nat, hi: nat, head: nat, mem: Memory, s: seq<Block>, i: nat)
    requires Tiles(lo, hi, s) && WellSized(s) && Placed(head, lo, hi) && Encodes(mem, head, s) && i < |s|
    ensures MergeNextIn(mem, head, s[i].base)
            == if i + 1 < |s| && s[i + 1].tag && s[i].End() == s[i + 1].base
               then JoinBlocks(mem, s[i].base, s[i + 1].base) else mem
  {
    hide Tiles, WellSized, Placed, Ring, Word, JoinBlocks, Encodes;
    Neighbours(lo, hi, head, mem, s, i);
    FieldsAt(mem, head, s, i);
    if i + 1 < |s| {
      FieldsAt(mem, head, s, i + 1);
      Neighbours(lo, hi, head, mem, s, i + 1);
      assert s[i + 1].base + NODE == Nodes(head, s)[i + 2];
    }
  }

  lemma EncodesPointers(mem: Memory, head: nat, s: seq<Block>)
    requires Encodes(mem, head, s)
    ensures PointersIn(mem, s)
  {
  }

  lemma UntouchedSelf(mem: Memory, head: nat, s: seq<Block>)
    ensures Untouched(mem, mem, head, s)
  {
  }

  lemma JoinHeaders(head: nat, s: seq<Block>, k: nat)
    requires k + 1 < |s|
    ensures forall a: nat :: Kernel(head, JoinNext(s, k, s[k].tag), a) ==> Kernel(head, s, a)
  {
    var t := JoinNext(s, k, s[k].tag);
    forall a: nat | Kernel(head, t, a) ensures Kernel(head, s, a) {
      if !(head <= a < head + 8) {
        var j :| 0 <= j < |t| && t[j].base <= a < t[j].base + HEADER;
        var y := s[if j <= k then j else j + 1];
        assert y in s && y.base == t[j].base;
      }
    }
  }

  lemma MergePrevEncodes(lo: nat, hi: nat, head: nat, mem: Memory, s: seq<Block>, i: nat)
    requires Tiles(lo, hi, s) && WellSized(s) && Placed(head, lo, hi) && Encodes(mem, head, s) && i < |s|
    ensures var t, m := MergePrev(s, i), MergePrevIn(mem, head, s[i].base);
            && Encodes(m, head, t) && Untouched(mem, m, head, s) && PointersIn(m, s)
            && forall a: nat :: Kernel(head, t, a) ==> Kernel(head, s, a)
  {
    hide Tiles, WellSized, Placed, Ring, Word, JoinBlocks, Kernel, Untouched, Encodes, JoinNext, PointersIn;
    Neighbours(lo, hi, head, mem, s, i);
    EncodesPointers(mem, head, s);
    UntouchedSelf(mem, head, s);
    if i > 0 {
      FieldsAt(mem, head, s, i - 1);
      Neighbours(lo, hi, head, mem, s, i - 1);
      assert s[i - 1].base + NODE == Nodes(head, s)[i];
      JoinEncodes(lo, hi, head, mem, s, i - 1);
      JoinHeaders(head, s, i - 1);
    }
  }

  // ----- kfree -----

  datatype Outcome<T> = Done(value: T) | Panic

  /** The test of kfree and krealloc: the word in front of `ptr` is `ptr`. */
  predicate LooksLive(mem: Memory, ptr: nat) {
    Word(mem, Minus(ptr, HEADER)) == ptr
  }

  function FreeIn(mem: Memory, head: nat, ptr: nat): Outcome<Memory> {
    if ptr == 0 then Done(mem)
    else if !LooksLive(mem, ptr) then Panic
    else
      var x := Minus(ptr, HEADER);
      Done(MergePrevIn(MergeNextIn(Mark(mem, x, true), head, x), head, x))
  }

  /** Freeing a block on the bytes of the heap is freeing it in the list. */
  lemma FreeEncodes(lo: nat, hi: nat, head: nat, mem: Memory, s: seq<Block>, i: nat)
    requires Inv(lo, hi, s) && Placed(head, lo, hi) && Encodes(mem, head, s) && i < |s|
    ensures var ptr := s[i].base + HEADER;
            var r, t := FreeIn(mem, head, ptr), KFree(s, ptr);
            && r.Done? && t.Some?
            && Encodes(r.value, head, t.value) && Untouched(mem, r.value, head, s) && PointersIn(r.value, s)
            && forall a: nat :: Kernel(head, t.value, a) ==> Kernel(head, s, a)
  {
    hide Tiles, WellSized, Coalesced, Placed, Ring, Word, Kernel, Untouched, Encodes, MergeNext, MergePrev, MergeNextIn,
      MergePrevIn, Mark, IndexOf, PointersIn;
    var x, u, m := s[i].base, s[i := s[i].(tag := true)], Mark(mem, s[i].base, true);
    FieldsAt(mem, head, s, i);
    TilesBaseUnique(lo, hi, s, i, IndexOf(s, x, 0));
    MarkEncodes(lo, hi, head, mem, s, i, true);
    RetagTiles(lo, hi, s, i, true);
    RetagWellSized(s, i);
    RetagHeaders(head, s, i);
    MergeNextEncodes(lo, hi, head, m, u, i);
    var t, m' := MergeNext(u, i), MergeNextIn(m, head, x);
    MergePrevEncodes(lo, hi, head, m', t, i);
    UntouchedBack(m', MergePrevIn(m', head, x), head, t, s);
    UntouchedBack(m, m', head, u, s);
    UntouchedThen(mem, m, m', head, s, s);
    UntouchedThen(mem, m', MergePrevIn(m', head, x), head, s, s);
    PointersStay(lo, hi, head, m', MergePrevIn(m', head, x), u, i);
    RetagPointers(MergePrevIn(m', head, x), s, i);
  }

  lemma RetagPointers(mem: Memory, s: seq<Block>, i: nat)
    requires i < |s| && PointersIn(mem, s[i := s[i].(tag := true)])
    ensures PointersIn(mem, s)
  {
    var t := s[i := s[i].(tag := true)];
    assert forall j :: 0 <= j < |s| ==> s[j].base == t[j].base;
  }

  /** The pointer of a header that a join has removed is still there. */
  lemma PointersStay(lo: nat, hi: nat, head: nat, m: Memory, m': Memory, s: seq<Block>, i: nat)
    requires Tiles(lo, hi, s) && WellSized(s) && Placed(head, lo, hi) && i < |s| && PointersIn(m, s)
    requires var t := MergeNext(s, i);
             Tiles(lo, hi, t) && WellSized(t) && PointersIn(m', t) && Untouched(m, m', head, t)
    ensures PointersIn(m', s)
  {
    hide Tiles, WellSized, Placed, Word, Untouched;
    var t := MergeNext(s, i);
    forall j | 0 <= j < |s| ensures Word(m', s[j].base) == s[j].base + HEADER {
      if |t| == |s| {
        assert Word(m', t[j].base) == t[j].base + HEADER;
      } else if j == i + 1 {
        BlockInside(lo, hi, s, i);
        BlockInside(lo, hi, s, i + 1);
        DataIsNotKernel(lo, hi, head, t, i, s[j].base, 4);
        UntouchedAt(m, m', head, t, s[j].base, 4);
        SameWord(m, m', s[j].base, 4, s[j].base);
      } else {
        var k := if j <= i then j else j - 1;
        assert t[k].base == s[j].base && Word(m', t[k].base) == t[k].base + HEADER;
      }
    }
  }

  /** Bytes behind the header of a block are in no header. */
  lemma DataIsNotKernel(lo: nat, hi: nat, head: nat, s: seq<Block>, i: nat, a: nat, n: nat)
    requires Tiles(lo, hi, s) && WellSized(s) && Placed(head, lo, hi) && i < |s|
    requires s[i].base + HEADER <= a && a + n <= s[i].base + s[i].size
    ensures forall p: nat :: a <= p < a + n ==> !Kernel(head, s, p)
  {
    hide Tiles, WellSized;
    BlockInside(lo, hi, s, i);
    forall p: nat | a <= p < a + n ensures !Kernel(head, s, p) {
      forall x | x in s ensures !(x.base <= p < x.base + HEADER) {
        var j :| 0 <= j < |s| && s[j] == x;
        if j != i { HeadersApart(lo, hi, s, i, j); }
      }
    }
  }

  lemma UntouchedAt(m: Memory, m': Memory, head: nat, s: seq<Block>, a: nat, n: nat)
    requires Untouched(m, m', head, s) && forall p: nat :: a <= p < a + n ==> !Kernel(head, s, p)
    ensures SameAt(m, m', a, n)
  {
    hide Kernel;
  }

  lemma RetagWellSized(s: seq<Block>, i: nat)
    requires WellSized(s) && i < |s|
    ensures WellSized(s[i := s[i].(tag := true)])
  {
    assert s[i] in s;
  }

  lemma RetagHeaders(head: nat, s: seq<Block>, i: nat)
    requires i < |s|
    ensures forall a: nat :: Kernel(head, s[i := s[i].(tag := true)], a) ==> Kernel(head, s, a)
  {
    var t := s[i := s[i].(tag := true)];
    forall a: nat | Kernel(head, t, a) ensures Kernel(head, s, a) {
      if !(head <= a < head + 8) {
        var j :| 0 <= j < |t| && t[j].base <= a < t[j].base + HEADER;
        assert s[j] in s && s[j].base == t[j].base;
      }
    }
  }

  lemma UntouchedBack(m: Memory, m': Memory, head: nat, t: seq<Block>, s: seq<Block>)
    requires Untouched(m, m', head, t)
    requires forall a: nat :: Kernel(head, t, a) ==> Kernel(head, s, a)
    ensures Untouched(m, m', head, s)
  {
    hide Kernel;
  }

  // ----- kmalloc -----

  /** Memory holds the heap between `lo` and `hi` with the blocks `s`. */
  ghost predicate Holds(mem: Memory, head: nat, lo: nat, hi: nat, s: seq<Block>) {
    Inv(lo, hi, s) && Placed(head, lo, hi) && Encodes(mem, head, s)
  }

  /** Where the walk along the links is: at block `i`, or back at the head. */
  ghost predicate Reaches(mem: Memory, head: nat, lo: nat, hi: nat, s: seq<Block>, i: nat, node: nat) {
    Holds(mem, head, lo, hi, s) && i <= |s| && node == After(Nodes(head, s), i)
  }

  lemma Walk(mem: Memory, head: nat, lo: nat, hi: nat, s: seq<Block>, i: nat, node: nat)
    requires Reaches(mem, head, lo, hi, s, i, node)
    ensures i <= |s| && (node == head <==> i == |s|)
    ensures i < |s| ==> var x := Minus(node, NODE);
                        && x == s[i].base && Word(mem, x + 4) + HEADER == s[i].size && (mem(x + 8) != 0 <==> s[i].tag)
                        && Reaches(mem, head, lo, hi, s, i + 1, Word(mem, node + 4))
  {
    hide Tiles, WellSized, Coalesced, Placed, Ring, Word, Encodes;
    if i < |s| {
      Neighbours(lo, hi, head, mem, s, i);
      FieldsAt(mem, head, s, i);
    }
  }

  /** The first free block from `node` on with `n` bytes behind its header, found along the
      links. */
  function Search(mem: Memory, head: nat, n: nat, node: nat,
                  ghost lo: nat, ghost hi: nat, ghost s: seq<Block>, ghost i: nat): (r: Option<nat>)
    requires Reaches(mem, head, lo, hi, s, i, node)
    decreases |s| - i
  {
    Walk(mem, head, lo, hi, s, i, node);
    if node == head then None
    else
      var x := Minus(node, NODE);
      if Word(mem, x + 4) >= n && mem(x + 8) != 0 then Some(x)
      else Search(mem, head, n, Word(mem, node + 4), lo, hi, s, i + 1)
  }

  lemma {:induction false} SearchFinds(mem: Memory, head: nat, n: nat, node: nat,
                                       lo: nat, hi: nat, s: seq<Block>, i: nat)
    requires Reaches(mem, head, lo, hi, s, i, node)
    ensures i <= |s|
    ensures var k := FirstFit(s, n, i);
            Search(mem, head, n, node, lo, hi, s, i) == if k < |s| then Some(s[k].base) else None
    decreases |s| - i
  {
    hide Reaches, Word;
    Walk(mem, head, lo, hi, s, i, node);
    if i < |s| && !(s[i].tag && s[i].size >= HEADER + n) {
      SearchFinds(mem, head, n, Word(mem, node + 4), lo, hi, s, i + 1);
    }
  }

  lemma FirstReached(mem: Memory, head: nat, lo: nat, hi: nat, s: seq<Block>)
    requires Holds(mem, head, lo, hi, s)
    ensures Reaches(mem, head, lo, hi, s, 0, Word(mem, head + 4))
  {
    hide Inv, Placed, Word, Fields;
    RingLinked(mem, Nodes(head, s), 0);
  }

  /** kmalloc: the new memory and the pointer, or nothing when there is no block. */
  function AllocIn(mem: Memory, head: nat, n: nat, ghost lo: nat, ghost hi: nat, ghost s: seq<Block>):
      Option<(Memory, nat)>
    requires Holds(mem, head, lo, hi, s)
  {
    FirstReached(mem, head, lo, hi, s);
    var found := Search(mem, head, n, Word(mem, head + 4), lo, hi, s, 0);
    if found.None? then None
    else
      var m := Split(mem, found.value, n);
      Some((m, Word(m, found.value)))
  }

  /** Allocating on the bytes of the heap is allocating in the list. */
  lemma AllocEncodes(lo: nat, hi: nat, head: nat, mem: Memory, s: seq<Block>, n: nat)
    requires Holds(mem, head, lo, hi, s)
    ensures var r, (t, ptr) := AllocIn(mem, head, n, lo, hi, s), Malloc(s, n);
            && (r.Some? <==> ptr.Some?)
            && (r.Some? ==> && r.value.1 == ptr.value
                            && Holds(r.value.0, head, lo, hi, t) && Untouched(mem, r.value.0, head, t))
  {
    hide Inv, Encodes, Untouched, Placed, Word, Split, SplitAt, Search, Reaches;
    FirstReached(mem, head, lo, hi, s);
    SearchFinds(mem, head, n, Word(mem, head + 4), lo, hi, s, 0);
    MallocCorrect(lo, hi, s, n);
    var i := FirstFit(s, n, 0);
    if i < |s| {
      SplitEncodes(lo, hi, head, mem, s, i, n);
      SplitBase(s, i, n);
      FieldsAt(Split(mem, s[i].base, n), head, SplitAt(s, i, n), i);
    }
  }
}
