// What the kernel heap is for: objects of bytes.  Every sequence of allocations, writes,
// resizings and frees that uses only live pointers runs on the bytes of the heap as on a map
// from pointers to objects.

module HeapStore {
  import opened Common
  import opened Tiling
  import opened KernelHeap
  import opened HeapWords

  // ----- krealloc -----

  function Copy(mem: Memory, dst: nat, src: nat, n: nat): Memory {
    (a: nat) => if dst <= a < dst + n then mem(src + (a - dst)) else mem(a)
  }

  function Min(a: nat, b: nat): nat {
    if a < b then a else b
  }

  function ResizeIn(mem: Memory, head: nat, ptr: nat, n: nat, ghost lo: nat, ghost hi: nat, ghost s: seq<Block>):
      Outcome<(Memory, nat)>
    requires Holds(mem, head, lo, hi, s)
  {
    if ptr != 0 && !LooksLive(mem, ptr) then Panic
    else
      var r := AllocIn(mem, head, n, lo, hi, s);
      if r.None? then Panic
      else if ptr == 0 then Done(r.value)
      else Move(r.value.0, head, ptr, r.value.1, n)
  }

  /** Copies what fits from `ptr` to `new'` and frees `ptr`. */
  function Move(mem: Memory, head: nat, ptr: nat, new': nat, n: nat): Outcome<(Memory, nat)> {
    var copied := Copy(mem, new', ptr, Min(n, Word(mem, Minus(ptr, HEADER) + 4)));
    var freed := FreeIn(copied, head, ptr);
    if freed.Panic? then Panic else Done((freed.value, new'))
  }

  // ----- Requests -----

  datatype Request =
    | Allocate(bytes: nat)
    | GiveBack(ptr: nat)
    | Resize(ptr: nat, bytes: nat)
    | Write(ptr: nat, offset: nat, byte: Byte)

  /** What memory becomes, and the pointer returned. */
  function Serve(mem: Memory, head: nat, r: Request, ghost lo: nat, ghost hi: nat, ghost s: seq<Block>):
      Outcome<(Memory, nat)>
    requires Holds(mem, head, lo, hi, s)
  {
    match r
    case Allocate(n) =>
      var a := AllocIn(mem, head, n, lo, hi, s);
      if a.None? then Panic else Done(a.value)
    case GiveBack(p) =>
      var f := FreeIn(mem, head, p);
      if f.Panic? then Panic else Done((f.value, 0))
    case Resize(p, n) => ResizeIn(mem, head, p, n, lo, hi, s)
    case Write(p, k, b) => Done((PutByte(mem, p + k, b), 0))
  }

  /** The blocks after a request. */
  function BlocksAfter(s: seq<Block>, r: Request): seq<Block> {
    match r
    case Allocate(n) => Malloc(s, n).0
    case GiveBack(p) => if KFree(s, p).Some? then KFree(s, p).value else s
    case Resize(p, n) =>
      var t := Malloc(s, n).0;
      if p != 0 && KFree(t, p).Some? then KFree(t, p).value else t
    case Write(_, _, _) => s
  }

  // ----- Objects -----

  /** The objects by their pointers. */
  type Objects = map<nat, seq<Byte>>

  /** A request that uses only live pointers and writes only inside objects. */
  predicate Allowed(objs: Objects, r: Request) {
    match r
    case Allocate(_) => true
    case GiveBack(p) => p == 0 || p in objs
    case Resize(p, _) => p == 0 || p in objs
    case Write(p, k, _) => p in objs && k < |objs[p]|
  }

  function Bytes(mem: Memory, a: nat, n: nat): (r: seq<Byte>)
    ensures |r| == n
    ensures forall k :: 0 <= k < n ==> r[k] == mem(a + k)
  {
    seq(n, (k: nat) => mem(a + k))
  }

  /** `n` bytes of which the first are those of `obj`, as many as there are, and the others
      what memory holds from `a` on. */
  function Carried(obj: seq<Byte>, n: nat, mem: Memory, a: nat): (r: seq<Byte>)
    ensures |r| == n
    ensures forall k :: 0 <= k < n ==> r[k] == if k < |obj| then obj[k] else mem(a + k)
  {
    seq(n, (k: nat) => if k < |obj| then obj[k] else mem(a + k))
  }

  /** What the objects become; a new object has `n` bytes, of which those that were not there
      before are whatever memory holds. */
  function ObjectsAfter(objs: Objects, r: Request, ptr: nat, mem: Memory): Objects
    requires Allowed(objs, r)
  {
    match r
    case Allocate(n) => objs[ptr := Bytes(mem, ptr, n)]
    case GiveBack(p) => objs - {p}
    case Resize(p, n) =>
      if p == 0 then objs[ptr := Bytes(mem, ptr, n)]
      else (objs - {p})[ptr := Carried(objs[p], n, mem, ptr)]
    case Write(p, k, b) => objs[p := objs[p][..k] + [b] + objs[p][k + 1..]]
  }

  function Pointers(s: seq<Block>): set<nat> {
    set x | x in Used(s) :: x.base + HEADER
  }

  /** Memory has the object behind the header of block `x`. */
  ghost predicate ObjectIn(mem: Memory, x: Block, obj: seq<Byte>) {
    |obj| + HEADER <= x.size && forall k :: 0 <= k < |obj| ==> mem(x.base + HEADER + k) == obj[k]
  }

  /** The blocks in use hold exactly the objects. */
  ghost predicate Represents(mem: Memory, s: seq<Block>, objs: Objects) {
    && objs.Keys == Pointers(s)
    && forall x :: x in Used(s) ==> x.base + HEADER in objs && ObjectIn(mem, x, objs[x.base + HEADER])
  }

  /** Blocks in use are untouched where only headers were written. */
  lemma ObjectStays(lo: nat, hi: nat, head: nat, s: seq<Block>, m: Memory, m': Memory, x: Block, obj: seq<Byte>)
    requires Tiles(lo, hi, s) && WellSized(s) && Placed(head, lo, hi) && x in s && Untouched(m, m', head, s)
    requires ObjectIn(m, x, obj)
    ensures ObjectIn(m', x, obj)
  {
    hide Tiles, WellSized, Placed, Untouched;
    var i :| 0 <= i < |s| && s[i] == x;
    DataIsNotKernel(lo, hi, head, s, i, x.base + HEADER, |obj|);
    UntouchedAt(m, m', head, s, x.base + HEADER, |obj|);
  }

  lemma PointerOf(s: seq<Block>, x: Block)
    requires x in Used(s)
    ensures x.base + HEADER in Pointers(s) && x in s && !x.tag
  {
  }

  lemma AllocatedPointers(lo: nat, hi: nat, s: seq<Block>, n: nat)
    requires Inv(lo, hi, s) && Malloc(s, n).1.Some?
    ensures var (t, p) := Malloc(s, n);
            Pointers(t) == Pointers(s) + {p.value} && p.value !in Pointers(s) && p.value > 0
  {
    hide NewBlock, Malloc, Tiles, Coalesced, WellSized, AllFree, Busy;
    MallocCorrect(lo, hi, s, n);
    NewBlockApart(lo, hi, s, n);
    var b, t := NewBlock(s, n), Malloc(s, n).0;
    assert b.base + HEADER in Pointers(t);
    forall x | x in Used(s) ensures x.base != b.base {
      UsedUnique(lo, hi, s, x);
      assert b.Covers(b.base);
    }
    forall p | p in Pointers(s) ensures p in Pointers(t) {
      var x :| x in Used(s) && x.base + HEADER == p;
      assert x in Used(t);
    }
  }

  /** Allocation adds one object with a new pointer, and fails only for want of room. */
  lemma AllocateRefines(lo: nat, hi: nat, head: nat, mem: Memory, s: seq<Block>, objs: Objects, n: nat)
    requires Holds(mem, head, lo, hi, s) && Represents(mem, s, objs)
    ensures var r := AllocIn(mem, head, n, lo, hi, s);
            && (r.None? <==> NoRoom(s, HEADER + n))
            && (r.Some? ==> var (m, p) := r.value;
                            && p !in objs && Malloc(s, n).1 == Some(p) && p > 0
                            && Holds(m, head, lo, hi, Malloc(s, n).0)
                            && Represents(m, Malloc(s, n).0, objs[p := Bytes(m, p, n)]))
  {
    hide AllocIn, Malloc, Inv, Encodes, Placed, NoRoom, Untouched, NewBlock, ObjectIn, AllFree, Busy;
    MallocCorrect(lo, hi, s, n);
    AllocEncodes(lo, hi, head, mem, s, n);
    if Malloc(s, n).1.Some? {
      var t, b := Malloc(s, n).0, NewBlock(s, n);
      var (m, p) := AllocIn(mem, head, n, lo, hi, s).value;
      AllocatedPointers(lo, hi, s, n);
      var new' := objs[p := Bytes(m, p, n)];
      forall x | x in Used(t) ensures x.base + HEADER in new' && ObjectIn(m, x, new'[x.base + HEADER]) {
        if x == b {
          NewObject(m, b, n);
        } else {
          InvParts(lo, hi, t);
          PointerOf(t, x);
          PointerOf(s, x);
          ObjectStays(lo, hi, head, t, mem, m, x, objs[x.base + HEADER]);
        }
      }
    }
  }

  lemma NewObject(m: Memory, b: Block, n: nat)
    requires b.size >= HEADER + n
    ensures ObjectIn(m, b, Bytes(m, b.base + HEADER, n))
  {
  }

  lemma UsedBlock(s: seq<Block>, objs: Objects, mem: Memory, p: nat) returns (i: nat)
    requires Represents(mem, s, objs) && p in objs
    ensures i < |s| && s[i] in Used(s) && 0 < p == s[i].base + HEADER && ObjectIn(mem, s[i], objs[p])
  {
    assert p in Pointers(s);
    var x :| x in Used(s) && x.base + HEADER == p;
    i :| 0 <= i < |s| && s[i] == x;
  }

  /** Freeing a live pointer is never refused and removes exactly its object. */
  lemma GiveBackRefines(lo: nat, hi: nat, head: nat, mem: Memory, s: seq<Block>, objs: Objects, p: nat)
    requires Holds(mem, head, lo, hi, s) && Represents(mem, s, objs) && p in objs
    ensures var r, t := FreeIn(mem, head, p), KFree(s, p);
            && p > 0 && LooksLive(mem, p) && r.Done? && t.Some?
            && Holds(r.value, head, lo, hi, t.value) && Represents(r.value, t.value, objs - {p})
  {
    hide *;
    var i := UsedBlock(s, objs, mem, p);
    HoldsParts(mem, head, lo, hi, s);
    InvParts(lo, hi, s);
    LiveAccepted(lo, hi, head, mem, s, i);
    FreeEncodes(lo, hi, head, mem, s, i);
    KFreeCorrect(lo, hi, s, p);
    HoldsFrom(FreeIn(mem, head, p).value, head, lo, hi, KFree(s, p).value);
    FreedObjects(lo, hi, head, mem, FreeIn(mem, head, p).value, s, KFree(s, p).value, objs, p);
  }

  lemma HoldsParts(mem: Memory, head: nat, lo: nat, hi: nat, s: seq<Block>)
    requires Holds(mem, head, lo, hi, s)
    ensures Inv(lo, hi, s) && Placed(head, lo, hi) && Encodes(mem, head, s)
  {
  }

  lemma HoldsFrom(mem: Memory, head: nat, lo: nat, hi: nat, s: seq<Block>)
    requires Inv(lo, hi, s) && Placed(head, lo, hi) && Encodes(mem, head, s)
    ensures Holds(mem, head, lo, hi, s)
  {
  }

  lemma FreedObjects(lo: nat, hi: nat, head: nat, mem: Memory, m: Memory, s: seq<Block>, t: seq<Block>,
                     objs: Objects, p: nat)
    requires Tiles(lo, hi, s) && WellSized(s) && Placed(head, lo, hi) && Untouched(mem, m, head, s)
    requires Represents(mem, s, objs) && Used(t) == set x | x in Used(s) && x.base + HEADER != p
    ensures Represents(m, t, objs - {p})
  {
    hide Tiles, WellSized, Placed, Untouched, ObjectIn, Busy;
    var left := objs - {p};
    forall x | x in Used(t) ensures x.base + HEADER in left && ObjectIn(m, x, left[x.base + HEADER]) {
      assert x in Used(s);
      PointerOf(s, x);
      ObjectStays(lo, hi, head, s, mem, m, x, objs[x.base + HEADER]);
    }
    forall q | q in left ensures q in Pointers(t) {
      assert q in Pointers(s);
      var x :| x in Used(s) && x.base + HEADER == q;
      PointerOf(t, x);
    }
  }

  /** The test of kfree accepts the pointer to every block. */
  lemma LiveAccepted(lo: nat, hi: nat, head: nat, mem: Memory, s: seq<Block>, i: nat)
    requires Holds(mem, head, lo, hi, s) && i < |s|
    ensures LooksLive(mem, s[i].base + HEADER)
  {
    hide Inv, Ring, Word, Placed;
    FieldsAt(mem, head, s, i);
  }

  /** Only bytes of the object behind header `i` differ. */
  ghost predicate WritesInto(m: Memory, m': Memory, x: Block) {
    forall a: nat :: !(x.base + HEADER <= a < x.base + x.size) ==> m'(a) == m(a)
  }

  /** Writing into an object leaves all headers alone. */
  lemma WriteHolds(lo: nat, hi: nat, head: nat, m: Memory, m': Memory, s: seq<Block>, i: nat)
    requires Holds(m, head, lo, hi, s) && i < |s| && WritesInto(m, m', s[i])
    ensures Holds(m', head, lo, hi, s)
  {
    InvParts(lo, hi, s);
    hide Tiles, WellSized, Coalesced, Ring, Fields;
    var ns := Nodes(head, s);
    BlockInside(lo, hi, s, i);
    forall j | 0 <= j < |s| ensures SameAt(m, m', s[j].base, HEADER) {
      if j != i { HeadersApart(lo, hi, s, i, j); }
    }
    forall j | 0 <= j < |ns| ensures SameAt(m, m', ns[j], 8) {
      if j > 0 { assert SameAt(m, m', s[j - 1].base, HEADER); }
    }
    RingSame(m, m', ns);
    forall j | 0 <= j < |s| ensures Fields(m', s[j]) {
      assert SameAt(m, m', s[j].base, HEADER);
      FieldsSame(m, m', s[j]);
    }
  }

  /** And all other objects. */
  lemma WriteRepresents(lo: nat, hi: nat, head: nat, m: Memory, m': Memory, s: seq<Block>, objs: Objects, i: nat,
                        obj: seq<Byte>)
    requires Holds(m, head, lo, hi, s) && Represents(m, s, objs) && i < |s| && s[i] in Used(s)
    requires WritesInto(m, m', s[i]) && ObjectIn(m', s[i], obj)
    ensures Represents(m', s, objs[s[i].base + HEADER := obj])
  {
    hide *;
    HoldsParts(m, head, lo, hi, s);
    InvParts(lo, hi, s);
    forall x | x in Used(s) && x != s[i] ensures x.base != s[i].base && ObjectIn(m', x, ObjectAt(objs, x)) {
      OtherObject(lo, hi, m, m', s, objs, i, x);
    }
    ReplacedObject(m, m', s, objs, i, obj);
  }

  function ObjectAt(objs: Objects, x: Block): seq<Byte> {
    if x.base + HEADER in objs then objs[x.base + HEADER] else []
  }

  lemma OtherObject(lo: nat, hi: nat, m: Memory, m': Memory, s: seq<Block>, objs: Objects, i: nat, x: Block)
    requires Tiles(lo, hi, s) && WellSized(s) && Represents(m, s, objs) && i < |s| && WritesInto(m, m', s[i])
    requires x in Used(s) && x != s[i]
    ensures x.base != s[i].base && ObjectIn(m', x, ObjectAt(objs, x))
  {
    hide Tiles, WellSized;
    PointerOf(s, x);
    var j :| 0 <= j < |s| && s[j] == x;
    HeadersApart(lo, hi, s, i, j);
    assert ObjectIn(m, x, objs[x.base + HEADER]);
  }

  lemma ReplacedObject(m: Memory, m': Memory, s: seq<Block>, objs: Objects, i: nat, obj: seq<Byte>)
    requires Represents(m, s, objs) && i < |s| && s[i] in Used(s) && ObjectIn(m', s[i], obj)
    requires forall x :: x in Used(s) && x != s[i] ==> x.base != s[i].base && ObjectIn(m', x, ObjectAt(objs, x))
    ensures Represents(m', s, objs[s[i].base + HEADER := obj])
  {
    hide ObjectIn, Busy;
    PointerOf(s, s[i]);
  }

  lemma ByteWritten(mem: Memory, x: Block, obj: seq<Byte>, k: nat, b: Byte)
    requires ObjectIn(mem, x, obj) && k < |obj|
    ensures var m := PutByte(mem, x.base + HEADER + k, b);
            WritesInto(mem, m, x) && ObjectIn(m, x, obj[..k] + [b] + obj[k + 1..])
  {
  }

  lemma WriteRefines(lo: nat, hi: nat, head: nat, mem: Memory, s: seq<Block>, objs: Objects, p: nat, k: nat, b: Byte)
    requires Holds(mem, head, lo, hi, s) && Represents(mem, s, objs) && p in objs && k < |objs[p]|
    ensures var m := PutByte(mem, p + k, b);
            Holds(m, head, lo, hi, s) && Represents(m, s, objs[p := objs[p][..k] + [b] + objs[p][k + 1..]])
  {
    hide Holds, Represents, ObjectIn, WritesInto;
    var i := UsedBlock(s, objs, mem, p);
    var obj: seq<Byte> := objs[p][..k] + [b] + objs[p][k + 1..];
    ByteWritten(mem, s[i], objs[p], k, b);
    WriteHolds(lo, hi, head, mem, PutByte(mem, p + k, b), s, i);
    WriteRepresents(lo, hi, head, mem, PutByte(mem, p + k, b), s, objs, i, obj);
  }

  /** Copying the old object into the new block. */
  lemma CopyObject(m: Memory, x: Block, was: Block, obj: seq<Byte>, n: nat)
    requires ObjectIn(m, was, obj) && was.size >= HEADER && x.size >= HEADER + n
    requires Apart(x.base, x.size, was.base, was.size)
    ensures var p, q := x.base + HEADER, was.base + HEADER;
            var m' := Copy(m, p, q, Min(n, was.size - HEADER));
            WritesInto(m, m', x) && ObjectIn(m', x, Carried(obj, n, m', p))
  {
    var p, q := x.base + HEADER, was.base + HEADER;
    var m' := Copy(m, p, q, Min(n, was.size - HEADER));
    forall k | 0 <= k < n && k < |obj| ensures m'(p + k) == obj[k] {
      assert m(q + k) == obj[k];
    }
  }

  /** Resizing a live object gives it a new pointer and keeps the bytes that both sizes have. */
  lemma ResizeRefines(lo: nat, hi: nat, head: nat, mem: Memory, s: seq<Block>, objs: Objects, p: nat, n: nat)
    requires Holds(mem, head, lo, hi, s) && Represents(mem, s, objs) && p in objs
    ensures var r := Serve(mem, head, Resize(p, n), lo, hi, s);
            && (r.Panic? <==> NoRoom(s, HEADER + n))
            && (r.Done? ==> && r.value.1 !in objs
                            && Holds(r.value.0, head, lo, hi, BlocksAfter(s, Resize(p, n)))
                            && Represents(r.value.0, BlocksAfter(s, Resize(p, n)),
                                          ObjectsAfter(objs, Resize(p, n), r.value.1, r.value.0)))
  {
    hide *;
    GiveBackRefines(lo, hi, head, mem, s, objs, p);
    AllocateRefines(lo, hi, head, mem, s, objs, n);
    ResizeIs(lo, hi, head, mem, s, p, n);
    if AllocIn(mem, head, n, lo, hi, s).Some? {
      var (m, q) := AllocIn(mem, head, n, lo, hi, s).value;
      MovedObject(lo, hi, head, m, Malloc(s, n).0, objs, p, q, n);
    }
  }

  lemma ResizeIs(lo: nat, hi: nat, head: nat, mem: Memory, s: seq<Block>, p: nat, n: nat)
    requires Holds(mem, head, lo, hi, s) && p > 0 && LooksLive(mem, p)
    ensures var a := AllocIn(mem, head, n, lo, hi, s);
            Serve(mem, head, Resize(p, n), lo, hi, s)
            == if a.None? then Panic else Move(a.value.0, head, p, a.value.1, n)
    ensures var t := Malloc(s, n).0;
            KFree(t, p).Some? ==> BlocksAfter(s, Resize(p, n)) == KFree(t, p).value
  {
    hide Holds, AllocIn, LooksLive, FreeIn, KFree, Malloc, Copy, Word;
  }

  /** The new block at `q` holds `n` bytes; then the object is moved there from `p`. */
  lemma MovedObject(lo: nat, hi: nat, head: nat, m: Memory, t: seq<Block>, objs: Objects, p: nat, q: nat, n: nat)
    requires Holds(m, head, lo, hi, t) && p in objs && q !in objs && Represents(m, t, objs[q := Bytes(m, q, n)])
    ensures var r := Move(m, head, p, q, n);
            && r.Done? && r.value.1 == q && KFree(t, p).Some?
            && Holds(r.value.0, head, lo, hi, KFree(t, p).value)
            && Represents(r.value.0, KFree(t, p).value, ObjectsAfter(objs, Resize(p, n), q, r.value.0))
  {
    hide *;
    var grown := objs[q := Bytes(m, q, n)];
    var i := UsedBlock(t, grown, m, p);
    var j := UsedBlock(t, grown, m, q);
    BlockFacts(lo, hi, head, m, t, i, j);
    ObjectFits(m, t[j], q, n);
    MoveIs(m, head, t[i], q, n);
    var m' := Copy(m, q, p, Min(n, t[i].size - HEADER));
    CopyObject(m, t[j], t[i], objs[p], n);
    var obj := Carried(objs[p], n, m', q);
    WriteHolds(lo, hi, head, m, m', t, j);
    WriteRepresents(lo, hi, head, m, m', t, grown, j, obj);
    GiveBackRefines(lo, hi, head, m', t, grown[q := obj], p);
    var final := FreeIn(m', head, p).value;
    var k := UsedBlock(KFree(t, p).value, grown[q := obj] - {p}, final, q);
    ObjectBytes(final, KFree(t, p).value[k], obj);
    ResizedObjects(objs, p, q, n, m', final, Bytes(m, q, n));
  }

  lemma BlockFacts(lo: nat, hi: nat, head: nat, m: Memory, t: seq<Block>, i: nat, j: nat)
    requires Holds(m, head, lo, hi, t) && i < |t| && j < |t| && t[i].base != t[j].base
    ensures Apart(t[j].base, t[j].size, t[i].base, t[i].size) && t[i].size >= HEADER
    ensures Fields(m, t[i])
  {
    hide Tiles, WellSized, Coalesced, Placed, Ring, Fields;
    HeadersApart(lo, hi, t, j, i);
    FieldsAt(m, head, t, i);
  }

  lemma ObjectFits(m: Memory, x: Block, q: nat, n: nat)
    requires ObjectIn(m, x, Bytes(m, q, n))
    ensures x.size >= HEADER + n
  {
  }

  lemma ObjectBytes(m: Memory, x: Block, obj: seq<Byte>)
    requires ObjectIn(m, x, obj)
    ensures forall k :: 0 <= k < |obj| ==> m(x.base + HEADER + k) == obj[k]
  {
  }

  lemma MoveIs(m: Memory, head: nat, was: Block, q: nat, n: nat)
    requires Fields(m, was)
    ensures was.size >= HEADER
    ensures var p := was.base + HEADER;
            var f := FreeIn(Copy(m, q, p, Min(n, was.size - HEADER)), head, p);
            Move(m, head, p, q, n) == if f.Panic? then Panic else Done((f.value, q))
  {
    hide Word, FreeIn, Copy;
  }

  /** The objects after a resizing, told from the final memory. */
  lemma ResizedObjects(objs: Objects, p: nat, q: nat, n: nat, m: Memory, final: Memory, fresh': seq<Byte>)
    requires p in objs && q !in objs && p > 0
    requires forall k :: 0 <= k < n ==> final(q + k) == Carried(objs[p], n, m, q)[k]
    ensures objs[q := fresh'][q := Carried(objs[p], n, m, q)] - {p} == ObjectsAfter(objs, Resize(p, n), q, final)
  {
    assert Carried(objs[p], n, final, q) == Carried(objs[p], n, m, q);
  }

  // ----- Runs -----

  /** Memory, the blocks it encodes and the objects it holds. */
  datatype State = State(mem: Memory, blocks: seq<Block>, objects: Objects)

  ghost predicate Good(head: nat, lo: nat, hi: nat, st: State) {
    Holds(st.mem, head, lo, hi, st.blocks) && Represents(st.mem, st.blocks, st.objects)
  }

  predicate Grows(r: Request) {
    r.Allocate? || r.Resize?
  }

  /** A request does to memory what it does to the objects; it panics only for want of room,
      and a pointer it returns is new. */
  ghost predicate Refines(head: nat, lo: nat, hi: nat, st: State, r: Request)
    requires Good(head, lo, hi, st) && Allowed(st.objects, r)
  {
    var out := Serve(st.mem, head, r, lo, hi, st.blocks);
    && (out.Panic? <==> Grows(r) && NoRoom(st.blocks, HEADER + r.bytes))
    && (out.Done? ==>
          var (m, p) := out.value;
          && Good(head, lo, hi, State(m, BlocksAfter(st.blocks, r), ObjectsAfter(st.objects, r, p, m)))
          && (Grows(r) ==> p !in st.objects))
  }

  lemma AllocateServed(head: nat, lo: nat, hi: nat, st: State, n: nat, r: Request)
    requires Good(head, lo, hi, st) && (r == Allocate(n) || r == Resize(0, n))
    ensures Refines(head, lo, hi, st, r)
  {
    hide Holds, Represents, AllocIn, Malloc, FreeIn, KFree, NoRoom, Move, LooksLive;
    AllocateRefines(lo, hi, head, st.mem, st.blocks, st.objects, n);
  }

  lemma GiveBackServed(head: nat, lo: nat, hi: nat, st: State, p: nat)
    requires Good(head, lo, hi, st) && (p == 0 || p in st.objects)
    ensures Refines(head, lo, hi, st, GiveBack(p))
  {
    hide Holds, Represents, FreeIn, KFree, NoRoom, LooksLive;
    if p == 0 {
      NullIsNoObject(head, lo, hi, st);
    } else {
      GiveBackRefines(lo, hi, head, st.mem, st.blocks, st.objects, p);
    }
  }

  lemma NullIsNoObject(head: nat, lo: nat, hi: nat, st: State)
    requires Good(head, lo, hi, st)
    ensures st.objects - {0} == st.objects
    ensures FreeIn(st.mem, head, 0) == Done(st.mem) && KFree(st.blocks, 0) == Some(st.blocks)
  {
    hide Holds;
    assert forall p :: p in Pointers(st.blocks) ==> p >= HEADER;
  }

  lemma ResizeServed(head: nat, lo: nat, hi: nat, st: State, p: nat, n: nat)
    requires Good(head, lo, hi, st) && p in st.objects
    ensures Refines(head, lo, hi, st, Resize(p, n))
  {
    hide Holds, Represents, Serve, BlocksAfter, ObjectsAfter, NoRoom;
    ResizeRefines(lo, hi, head, st.mem, st.blocks, st.objects, p, n);
  }

  lemma WriteServed(head: nat, lo: nat, hi: nat, st: State, p: nat, k: nat, b: Byte)
    requires Good(head, lo, hi, st) && p in st.objects && k < |st.objects[p]|
    ensures Refines(head, lo, hi, st, Write(p, k, b))
  {
    hide Holds, Represents, NoRoom;
    WriteRefines(lo, hi, head, st.mem, st.blocks, st.objects, p, k, b);
  }

  lemma ServeRefines(head: nat, lo: nat, hi: nat, st: State, r: Request)
    requires Good(head, lo, hi, st) && Allowed(st.objects, r)
    ensures Refines(head, lo, hi, st, r)
  {
    hide Good, Refines;
    match r
    case Allocate(n) => AllocateServed(head, lo, hi, st, n, r);
    case GiveBack(p) => GiveBackServed(head, lo, hi, st, p);
    case Resize(p, n) =>
      if p == 0 {
        AllocateServed(head, lo, hi, st, n, r);
      } else {
        ResizeServed(head, lo, hi, st, p, n);
      }
    case Write(p, k, b) => WriteServed(head, lo, hi, st, p, k, b);
  }

  /** The state after some requests; nothing if one is not allowed or finds no room. */
  ghost function Run(head: nat, lo: nat, hi: nat, st: State, rs: seq<Request>): Option<State>
    requires Good(head, lo, hi, st)
    decreases |rs|
  {
    if rs == [] then Some(st)
    else if !Allowed(st.objects, rs[0]) then None
    else
      var out := Serve(st.mem, head, rs[0], lo, hi, st.blocks);
      if out.Panic? then None
      else
        ServeRefines(head, lo, hi, st, rs[0]);
        var (m, p) := out.value;
        Run(head, lo, hi, State(m, BlocksAfter(st.blocks, rs[0]), ObjectsAfter(st.objects, rs[0], p, m)), rs[1..])
  }

  /** After every run memory encodes the blocks and holds exactly the objects; the test of
      kfree and krealloc accepts the pointer of each of them. */
  lemma {:induction false} RunIsStore(head: nat, lo: nat, hi: nat, st: State, rs: seq<Request>)
    requires Good(head, lo, hi, st) && Run(head, lo, hi, st, rs).Some?
    ensures var end := Run(head, lo, hi, st, rs).value;
            && Good(head, lo, hi, end)
            && forall p :: p in end.objects ==>
                 LooksLive(end.mem, p) && Bytes(end.mem, p, |end.objects[p]|) == end.objects[p]
    decreases |rs|
  {
    hide Holds, Represents, Serve, BlocksAfter, ObjectsAfter, LooksLive, Bytes, NoRoom;
    if rs == [] {
      forall p | p in st.objects ensures LooksLive(st.mem, p) && Bytes(st.mem, p, |st.objects[p]|) == st.objects[p] {
        ObjectRead(head, lo, hi, st, p);
      }
    } else {
      ServeRefines(head, lo, hi, st, rs[0]);
      var (m, p) := Serve(st.mem, head, rs[0], lo, hi, st.blocks).value;
      RunIsStore(head, lo, hi, State(m, BlocksAfter(st.blocks, rs[0]), ObjectsAfter(st.objects, rs[0], p, m)), rs[1..]);
    }
  }

  lemma ObjectRead(head: nat, lo: nat, hi: nat, st: State, p: nat)
    requires Good(head, lo, hi, st) && p in st.objects
    ensures LooksLive(st.mem, p) && Bytes(st.mem, p, |st.objects[p]|) == st.objects[p]
  {
    hide Holds, LooksLive;
    var i := UsedBlock(st.blocks, st.objects, st.mem, p);
    LiveAccepted(lo, hi, head, st.mem, st.blocks, i);
  }

  /** No two objects share a byte, and none has a byte of a header. */
  lemma ObjectsApart(head: nat, lo: nat, hi: nat, st: State, p: nat, q: nat)
    requires Good(head, lo, hi, st) && p in st.objects && q in st.objects && p != q
    ensures Apart(p, |st.objects[p]|, q, |st.objects[q]|)
    ensures forall a: nat :: p <= a < p + |st.objects[p]| ==> !Kernel(head, st.blocks, a)
  {
    hide Inv, Encodes, Placed, Kernel, Represents;
    var i := UsedBlock(st.blocks, st.objects, st.mem, p);
    var j := UsedBlock(st.blocks, st.objects, st.mem, q);
    InvParts(lo, hi, st.blocks);
    hide Tiles, WellSized;
    HeadersApart(lo, hi, st.blocks, i, j);
    DataIsNotKernel(lo, hi, head, st.blocks, i, p, |st.objects[p]|);
  }

  // ----- Pointers to no block -----

  lemma FreeNull(head: nat, mem: Memory, s: seq<Block>)
    ensures KFree(s, 0) == Some(s) && FreeIn(mem, head, 0) == Done(mem)
  {
  }

  lemma FreedIndex(s: seq<Block>, ptr: nat) returns (i: nat)
    requires ptr != 0 && KFree(s, ptr).Some?
    ensures i < |s| && s[i].base + HEADER == ptr
  {
    hide MergeAt;
    i := IndexOf(s, ptr - HEADER, 0);
  }

  /** Freeing a pointer to a block of the list. */
  lemma KnownBlock(head: nat, lo: nat, hi: nat, mem: Memory, s: seq<Block>, ptr: nat)
    ensures Holds(mem, head, lo, hi, s) && ptr != 0 && KFree(s, ptr).Some? ==>
              FreeIn(mem, head, ptr).Done? && Holds(FreeIn(mem, head, ptr).value, head, lo, hi, KFree(s, ptr).value)
  {
    hide Holds, FreeIn, KFree, Untouched, Kernel, PointersIn;
    if Holds(mem, head, lo, hi, s) && ptr != 0 && KFree(s, ptr).Some? {
      var i := FreedIndex(s, ptr);
      HoldsParts(mem, head, lo, hi, s);
      hide Inv, Placed, Encodes;
      FreeEncodes(lo, hi, head, mem, s, i);
      KFreeCorrect(lo, hi, s, ptr);
      HoldsFrom(FreeIn(mem, head, ptr).value, head, lo, hi, KFree(s, ptr).value);
    }
  }

  /** Any pointer is told by the word in front of it. One that is refused stands behind no
      block; one behind a block is freed as in the list. */
  lemma AnyPointer(head: nat, lo: nat, hi: nat, mem: Memory, s: seq<Block>, ptr: nat)
    requires Holds(mem, head, lo, hi, s)
    ensures var r, t := FreeIn(mem, head, ptr), KFree(s, ptr);
            && (r.Panic? <==> ptr != 0 && Word(mem, Minus(ptr, HEADER)) != ptr)
            && (r.Panic? ==> t.None?)
            && (t.Some? ==> r.Done? && Holds(r.value, head, lo, hi, t.value))
  {
    hide Holds, KFree, MergeNextIn, MergePrevIn, Mark, Word;
    if ptr == 0 {
      FreeNull(head, mem, s);
    } else {
      KnownBlock(head, lo, hi, mem, s, ptr);
    }
  }

  /** The test accepts the pointers to all blocks of before a free, joined ones too. */
  lemma JoinedLooksLive(head: nat, lo: nat, hi: nat, mem: Memory, s: seq<Block>, i: nat)
    requires Holds(mem, head, lo, hi, s) && i < |s|
    ensures var r := FreeIn(mem, head, s[i].base + HEADER);
            r.Done? && forall j :: 0 <= j < |s| ==> LooksLive(r.value, s[j].base + HEADER)
  {
    hide Word, FreeIn, KFree, Inv, Placed, Encodes, Untouched, Kernel;
    FreeEncodes(lo, hi, head, mem, s, i);
  }

  const WHOLE: seq<Block> := [Span(1000, 400, true)]
  const HALVES: seq<Block> := [Span(1000, 40, false), Span(1040, 360, true)]
  const OTHERS: seq<Block> := [Span(1000, 36, false), Span(1036, 364, true)]

  lemma ExampleBlocks()
    ensures Malloc(WHOLE, 20) == (HALVES, Some(1020)) && KFree(HALVES, 1020) == Some(WHOLE)
    ensures Malloc(WHOLE, 16) == (OTHERS, Some(1020)) && KFree(WHOLE, 1060) == None
  {
    assert FirstFit(WHOLE, 20, 0) == 0 && FirstFit(WHOLE, 16, 0) == 0;
    assert SplitAt(WHOLE, 0, 20) == HALVES && SplitAt(WHOLE, 0, 16) == OTHERS;
    assert IndexOf(HALVES, 1000, 0) == 0 && IndexOf(WHOLE, 1040, 0) == 1;
    var marked := HALVES[0 := HALVES[0].(tag := true)];
    assert marked == [Span(1000, 40, true), Span(1040, 360, true)];
    assert JoinNext(marked, 0, true) == WHOLE;
  }

  /** After 20 bytes were allocated and freed the header of the split looks live, though no
      block begins there. */
  lemma StaleHeaderLooksLive(head: nat, mem: Memory)
    requires Holds(mem, head, 1000, 1400, HALVES)
    ensures var r := FreeIn(mem, head, 1020);
            && r.Done? && Holds(r.value, head, 1000, 1400, WHOLE)
            && LooksLive(r.value, 1060) && KFree(WHOLE, 1060).None?
  {
    hide FreeIn, KFree, Inv, Placed, Encodes, Untouched, Kernel, PointersIn, LooksLive;
    ExampleBlocks();
    FreeEncodes(1000, 1400, head, mem, HALVES, 0);
    KFreeCorrect(1000, 1400, HALVES, 1020);
    JoinedLooksLive(head, 1000, 1400, mem, HALVES, 0);
    assert LooksLive(FreeIn(mem, head, 1020).value, HALVES[1].base + HEADER);
  }

  /** A later header may be written over it; then the test refuses the pointer. */
  lemma OverwrittenHeaderRefused(head: nat, mem: Memory)
    requires Holds(mem, head, 1000, 1400, WHOLE)
    ensures var r := AllocIn(mem, head, 16, 1000, 1400, WHOLE);
            r.Some? && Holds(r.value.0, head, 1000, 1400, OTHERS) && !LooksLive(r.value.0, 1060)
  {
    hide AllocIn, Malloc, Inv, Placed, Encodes, Untouched, KFree, Word;
    ExampleBlocks();
    AllocEncodes(1000, 1400, head, mem, WHOLE, 16);
    FieldsAt(AllocIn(mem, head, 16, 1000, 1400, WHOLE).value.0, head, OTHERS, 1);
  }

  // ----- The heap as the kernel keeps it -----

  /** kmalloc_initialize: an empty list, and one free block linked into it. */
  function Boot(mem: Memory, head: nat, start: nat, bytes: nat): Memory
    requires bytes >= HEADER
  {
    var m := Put(Put(mem, head, head), head + 4, head);
    Link(FirstHeader(m, start, bytes), head, start + NODE)
  }

  function FirstHeader(mem: Memory, start: nat, bytes: nat): Memory
    requires bytes >= HEADER
  {
    PutByte(Put(Put(mem, start, start + HEADER), start + 4, bytes - HEADER), start + 8, 1)
  }

  lemma FirstHeaderFields(mem: Memory, start: nat, bytes: nat)
    requires bytes >= HEADER && start + bytes < LIMIT
    ensures Fields(FirstHeader(mem, start, bytes), Span(start, bytes, true))
    ensures Only(mem, FirstHeader(mem, start, bytes), start, 9, 0, 0, 0, 0)
  {
    hide Word, ByteOf;
    var m1 := Put(mem, start, start + HEADER);
    var m2 := Put(m1, start + 4, bytes - HEADER);
    var m3 := PutByte(m2, start + 8, 1);
    PutSame(mem, start, start + HEADER);
    PutOther(m1, start + 4, bytes - HEADER, start);
    PutSame(m1, start + 4, bytes - HEADER);
    assert SameAt(m2, m3, start, 8);
    SameWord(m2, m3, start, 8, start);
    SameWord(m2, m3, start, 8, start + 4);
  }

  lemma EmptyRing(mem: Memory, head: nat)
    requires head + 8 <= LIMIT
    ensures Ring(Put(Put(mem, head, head), head + 4, head), [head])
  {
    hide Word;
    PutSame(mem, head, head);
    PutOther(Put(mem, head, head), head + 4, head, head);
    PutSame(Put(mem, head, head), head + 4, head);
  }

  lemma BootHolds(mem: Memory, head: nat, start: nat, bytes: nat)
    requires bytes >= HEADER && Placed(head, start, start + bytes)
    ensures Holds(Boot(mem, head, start, bytes), head, start, start + bytes, [Span(start, bytes, true)])
    ensures Represents(Boot(mem, head, start, bytes), [Span(start, bytes, true)], map[])
  {
    hide Word, ByteOf, Link, Put, FirstHeader, Ring, Only, Fields;
    var x, s := Span(start, bytes, true), [Span(start, bytes, true)];
    var m := Put(Put(mem, head, head), head + 4, head);
    var m1 := FirstHeader(m, start, bytes);
    var m2 := Link(m1, head, start + NODE);
    TilesOne(x);
    EmptyRing(mem, head);
    FirstHeaderFields(m, start, bytes);
    OnlyApart(m, m1, start, 9, 0, 0, 0, 0, head, 8);
    RingSame(m, m1, [head]);
    NodesSpread(start, start + bytes, head, s);
    assert Inserted([head], 1, start + NODE) == Nodes(head, s);
    LinkKeepsRing(m1, [head], 0, start + NODE);
    OnlyApart(m1, m2, start + NODE, 8, head + 4, 4, head, 4, start, 9);
    FieldsSame(m1, m2, x);
    assert s[0] == x;
  }

  lemma SearchStep(mem: Memory, head: nat, n: nat, node: nat, lo: nat, hi: nat, s: seq<Block>, i: nat)
    requires Reaches(mem, head, lo, hi, s, i, node)
    ensures var x := Minus(node, NODE);
            if node == head then Search(mem, head, n, node, lo, hi, s, i) == None
            else
              && i < |s| && Reaches(mem, head, lo, hi, s, i + 1, Word(mem, node + 4))
              && Search(mem, head, n, node, lo, hi, s, i)
                 == if Word(mem, x + 4) >= n && mem(x + 8) != 0 then Some(x)
                    else Search(mem, head, n, Word(mem, node + 4), lo, hi, s, i + 1)
  {
    hide Reaches, Word;
    Walk(mem, head, lo, hi, s, i, node);
  }

  lemma NoneStays(lo: nat, hi: nat, s: seq<Block>, n: nat)
    ensures Malloc(s, n).1.None? ==> Malloc(s, n) == (s, None)
  {
  }

  class HeapArea {
    const head: nat
    ghost const lo: nat
    ghost const hi: nat
    var mem: Memory
    ghost var blocks: seq<Block>

    ghost predicate Valid()
      reads this
    {
      Holds(mem, head, lo, hi, blocks)
    }

    constructor (before: Memory, list: nat, start: nat, bytes: nat)
      requires bytes >= HEADER && Placed(list, start, start + bytes)
      ensures Valid() && blocks == [Span(start, bytes, true)] && Represents(mem, blocks, map[])
    {
      hide Boot, Holds, Represents, Placed;
      head, lo, hi := list, start, start + bytes;
      mem, blocks := Boot(before, list, start, bytes), [Span(start, bytes, true)];
      new;
      BootHolds(before, list, start, bytes);
    }

    /** Walks the list in memory and takes the first free block that is long enough. */
    method AllocBytes(n: nat) returns (r: Option<nat>)
      requires Valid()
      modifies `mem, `blocks
      ensures AllocIn(old(mem), head, n, lo, hi, old(blocks)) == if r.Some? then Some((mem, r.value)) else None
      ensures (blocks, r) == Malloc(old(blocks), n)
      ensures Valid()
    {
      hide Holds, Reaches, Word, Split, Search, Malloc;
      FirstReached(mem, head, lo, hi, blocks);
      AllocEncodes(lo, hi, head, mem, blocks, n);
      ghost var s, m := blocks, mem;
      var node := Word(mem, head + 4);
      ghost var i := 0;
      while node != head
        invariant mem == m && blocks == s
        invariant Reaches(mem, head, lo, hi, s, i, node)
        invariant Search(m, head, n, Word(m, head + 4), lo, hi, s, 0) == Search(m, head, n, node, lo, hi, s, i)
        decreases |s| - i
      {
        Walk(mem, head, lo, hi, s, i, node);
        SearchStep(mem, head, n, node, lo, hi, s, i);
        var x := Minus(node, NODE);
        if Word(mem, x + 4) >= n && mem(x + 8) != 0 {
          mem := Split(mem, x, n);
          blocks := Malloc(blocks, n).0;
          r := Some(Word(mem, x));
          return;
        }
        node := Word(mem, node + 4);
        i := i + 1;
      }
      SearchStep(mem, head, n, node, lo, hi, s, i);
      NoneStays(lo, hi, s, n);
      r := None;
    }

    /** Frees what `ptr` points to, or refuses it by the word in front of it. */
    method FreeBytes(ptr: nat) returns (ok: bool)
      modifies `mem, `blocks
      ensures FreeIn(old(mem), head, ptr) == if ok then Done(mem) else Panic
      ensures ok && KFree(old(blocks), ptr).Some? ==> blocks == KFree(old(blocks), ptr).value
      ensures !ok || KFree(old(blocks), ptr).None? ==> blocks == old(blocks)
      ensures old(Valid()) && KFree(old(blocks), ptr).Some? ==> ok && Valid()
    {
      hide Holds, Mark, MergeNextIn, MergePrevIn, KFree, Word;
      ghost var s, m := blocks, mem;
      if ptr == 0 {
        FreeNull(head, mem, blocks);
        return true;
      }
      var x := Minus(ptr, HEADER);
      if Word(mem, x) != ptr {
        KnownBlock(head, lo, hi, mem, s, ptr);
        return false;
      }
      mem := Mark(mem, x, true);
      mem := MergeNextIn(mem, head, x);
      mem := MergePrevIn(mem, head, x);
      ok := true;
      if KFree(s, ptr).Some? {
        blocks := KFree(s, ptr).value;
      }
      KnownBlock(head, lo, hi, m, s, ptr);
    }

    /** Allocates anew, copies what fits and frees the old block. */
    method ResizeBytes(ptr: nat, n: nat) returns (r: Option<nat>)
      requires Valid()
      modifies `mem, `blocks
      ensures ResizeIn(old(mem), head, ptr, n, lo, hi, old(blocks)) == if r.Some? then Done((mem, r.value)) else Panic
      ensures r.Some? ==> blocks == BlocksAfter(old(blocks), Resize(ptr, n))
    {
      hide Holds, Word, AllocIn, Malloc, KFree, FreeIn, Copy;
      if ptr != 0 && Word(mem, Minus(ptr, HEADER)) != ptr { return None; }
      r := AllocBytes(n);
      if r.None? || ptr == 0 { return; }
      var size := Word(mem, Minus(ptr, HEADER) + 4);
      mem := Copy(mem, r.value, ptr, if n > size then size else n);
      var ok := FreeBytes(ptr);
      if !ok { r := None; }
    }
  }
}
