// Two-level page tables: a directory of tables of entries, filled and emptied with running
// indices, read back as one flat map from virtual pages to entries.

module PageTables {

  const ENTRIES: nat := 1024

  /** Directory entries from here on belong to the kernel. */
  const KERNEL_TABLE: nat := 768

  /** Virtual pages of the 32-bit address space. */
  const PAGES: nat := 1048576

  datatype Entry = Empty | Page(frame: nat, write: bool, user: bool)

  function ReadOnly(e: Entry): Entry {
    if e.Page? then e.(write := false) else Empty
  }

  /** What a flat map holds for virtual page `u` after mapping `n` pages from `v` on to the
      frames from `frame` on. */
  function Mapped(was: Entry, u: nat, v: nat, frame: nat, n: nat, write: bool, user: bool): Entry {
    if v <= u < v + n then Page(frame + (u - v), write, user) else was
  }

  /** What it holds after unmapping `n` pages from `v` on. */
  function Unmapped(was: Entry, u: nat, v: nat, n: nat): Entry {
    if v <= u < v + n then Empty else was
  }

  function PageOf(d: nat, t: nat): nat {
    d * ENTRIES + t
  }

  class AddressSpaceTables {
    /** Which tables are present; the contents of an absent one mean nothing. */
    const dir: array<bool>
    const tables: array2<Entry>

    ghost predicate Valid() {
      && dir.Length == ENTRIES
      && tables.Length0 == ENTRIES
      && tables.Length1 == ENTRIES
    }

    /** The entry a walk reaches, by directory and table index. */
    function At(d: nat, t: nat): Entry
      requires Valid() && d < ENTRIES && t < ENTRIES
      reads dir, tables
    {
      if dir[d] then tables[d, t] else Empty
    }

    /** The walk of the hardware and of virt_to_phy. */
    function Walk(v: nat): Entry
      requires Valid() && v < PAGES
      reads dir, tables
    {
      At(v / ENTRIES, v % ENTRIES)
    }

    /** Table `d` holds an entry. */
    ghost predicate HasEntry(d: nat)
      requires Valid() && d < ENTRIES
      reads dir, tables
    {
      exists t :: 0 <= t < ENTRIES && At(d, t) != Empty
    }

    constructor ()
      ensures Valid() && fresh(dir) && fresh(tables)
      ensures forall d, t :: 0 <= d < ENTRIES && 0 <= t < ENTRIES ==> At(d, t) == Empty
    {
      dir := new bool[ENTRIES](i => false);
      tables := new Entry[ENTRIES, ENTRIES]((i, j) => Empty);
    }

    /** Adds a zeroed table where there is none; no walk changes. */
    method InstallTable(d: nat)
      requires Valid() && d < ENTRIES
      modifies dir, tables
      ensures dir[d]
      ensures forall i :: 0 <= i < ENTRIES && i != d ==> dir[i] == old(dir[i])
      ensures forall i, t :: 0 <= i < ENTRIES && 0 <= t < ENTRIES ==> At(i, t) == old(At(i, t))
    {
      if !dir[d] {
        dir[d] := true;
        var t := 0;
        while t < ENTRIES
          invariant t <= ENTRIES
          invariant dir[d] && forall i :: 0 <= i < ENTRIES && i != d ==> dir[i] == old(dir[i])
          invariant forall k :: 0 <= k < t ==> tables[d, k] == Empty
          invariant forall i, k :: 0 <= i < ENTRIES && 0 <= k < ENTRIES && i != d ==> tables[i, k] == old(tables[i, k])
        {
          tables[d, t] := Empty;
          t := t + 1;
        }
      }
    }

    /** Maps `n` pages from `v` on: the walk sends page k of the range to frame k and every
        other page where it went before, across any number of tables. */
    method MapPages(v: nat, frame: nat, n: nat, write: bool, user: bool)
      requires Valid() && n > 0 && v + n <= PAGES
      modifies dir, tables
      ensures forall d, t :: 0 <= d < ENTRIES && 0 <= t < ENTRIES ==>
                At(d, t) == Mapped(old(At(d, t)), PageOf(d, t), v, frame, n, write, user)
      ensures forall u :: 0 <= u < PAGES ==> Walk(u) == Mapped(old(Walk(u)), u, v, frame, n, write, user)
    {
      var d: nat, t: nat := v / ENTRIES, v % ENTRIES;
      InstallTable(d);
      var k := 0;
      while true
        invariant k < n && d < ENTRIES && t < ENTRIES && PageOf(d, t) == v + k && dir[d]
        invariant forall i, j :: 0 <= i < ENTRIES && 0 <= j < ENTRIES ==>
                    At(i, j) == Mapped(old(At(i, j)), PageOf(i, j), v, frame, k, write, user)
        decreases n - k
      {
        label L:
        tables[d, t] := Page(frame + k, write, user);
        assert forall i, j :: 0 <= i < ENTRIES && 0 <= j < ENTRIES && (i != d || j != t) ==>
          At(i, j) == old@L(At(i, j));
        SamePage(d, t);
        k := k + 1;
        if k == n { break; }
        t := t + 1;
        if t == ENTRIES {
          d, t := d + 1, 0;
          InstallTable(d);
        }
      }
    }

    /** Drops a user table all of whose entries are empty; no walk changes. */
    method CleanTable(d: nat)
      requires Valid() && d < ENTRIES && dir[d]
      modifies dir
      ensures forall i :: 0 <= i < ENTRIES && i != d ==> dir[i] == old(dir[i])
      ensures forall i, t :: 0 <= i < ENTRIES && 0 <= t < ENTRIES ==> At(i, t) == old(At(i, t))
      ensures dir[d] <==> d >= KERNEL_TABLE || HasEntry(d)
    {
      if d >= KERNEL_TABLE { return; }
      var t := 0;
      while t < ENTRIES
        invariant t <= ENTRIES && forall k :: 0 <= k < t ==> tables[d, k] == Empty
      {
        if tables[d, t] != Empty {
          assert At(d, t) != Empty;
          return;
        }
        t := t + 1;
      }
      assert !HasEntry(d);
      dir[d] := false;
    }

    /** Unmaps `n` pages from `v` on, exactly those, and drops the user tables this empties
        (those of the kernel stay). */
    method UnmapPages(v: nat, n: nat, kernel: bool)
      requires Valid() && n > 0 && v + n <= PAGES
      requires forall d :: v / ENTRIES <= d <= (v + n - 1) / ENTRIES ==> dir[d]
      modifies dir, tables
      ensures forall d, t :: 0 <= d < ENTRIES && 0 <= t < ENTRIES ==>
                At(d, t) == Unmapped(old(At(d, t)), PageOf(d, t), v, n)
      ensures forall u :: 0 <= u < PAGES ==> Walk(u) == Unmapped(old(Walk(u)), u, v, n)
      ensures !kernel ==>
        forall d :: v / ENTRIES <= d <= (v + n - 1) / ENTRIES && d < KERNEL_TABLE && dir[d] ==> HasEntry(d)
    {
      var d: nat, t: nat := v / ENTRIES, v % ENTRIES;
      var k := 0;
      while true
        invariant k < n && v / ENTRIES <= d < ENTRIES && t < ENTRIES && PageOf(d, t) == v + k
        invariant forall i :: d <= i <= (v + n - 1) / ENTRIES ==> dir[i]
        invariant d <= (v + n - 1) / ENTRIES
        invariant forall i, j :: 0 <= i < ENTRIES && 0 <= j < ENTRIES ==>
                    At(i, j) == Unmapped(old(At(i, j)), PageOf(i, j), v, k)
        invariant !kernel ==> forall i :: v / ENTRIES <= i < d && i < KERNEL_TABLE && dir[i] ==> HasEntry(i)
        decreases n - k
      {
        label L:
        tables[d, t] := Empty;
        assert forall i, j :: 0 <= i < ENTRIES && 0 <= j < ENTRIES && (i != d || j != t) ==>
          At(i, j) == old@L(At(i, j));
        assert forall i :: 0 <= i < d && old@L(HasEntry(i)) ==> HasEntry(i);
        SamePage(d, t);
        k := k + 1;
        if k == n { break; }
        t := t + 1;
        if t == ENTRIES {
          d, t := d + 1, 0;
          if !kernel { CleanTable(d - 1); }
        }
      }
      if !kernel { CleanTable(d); }
    }

    /** Copies the user half into `child` and takes write permission away on both sides. */
    method DuplicateInto(child: AddressSpaceTables)
      requires Valid() && child.Valid() && child.dir != dir && child.tables != tables
      modifies tables, child.dir, child.tables
      ensures forall d, t :: 0 <= d < KERNEL_TABLE && 0 <= t < ENTRIES ==>
                At(d, t) == ReadOnly(old(At(d, t))) && child.At(d, t) == At(d, t)
      ensures forall d, t :: KERNEL_TABLE <= d < ENTRIES && 0 <= t < ENTRIES ==>
                At(d, t) == old(At(d, t)) && child.At(d, t) == old(child.At(d, t))
    {
      var d := 0;
      while d < KERNEL_TABLE
        invariant d <= KERNEL_TABLE
        invariant forall i, j :: 0 <= i < d && 0 <= j < ENTRIES ==>
                    At(i, j) == ReadOnly(old(At(i, j))) && child.At(i, j) == At(i, j)
        invariant forall i, j :: d <= i < ENTRIES && 0 <= j < ENTRIES ==> tables[i, j] == old(tables[i, j])
        invariant forall i, j :: KERNEL_TABLE <= i < ENTRIES && 0 <= j < ENTRIES ==>
                    child.tables[i, j] == old(child.tables[i, j])
        invariant forall i :: KERNEL_TABLE <= i < ENTRIES ==> child.dir[i] == old(child.dir[i])
      {
        if dir[d] { CopyTable(d, child); } else { child.dir[d] := false; }
        d := d + 1;
      }
    }

    method CopyTable(d: nat, child: AddressSpaceTables)
      requires Valid() && child.Valid() && child.dir != dir && child.tables != tables
      requires d < KERNEL_TABLE && dir[d]
      modifies tables, child.dir, child.tables
      ensures forall j :: 0 <= j < ENTRIES ==> tables[d, j] == child.tables[d, j] == ReadOnly(old(tables[d, j]))
      ensures forall i, j :: 0 <= i < ENTRIES && 0 <= j < ENTRIES && i != d ==>
                tables[i, j] == old(tables[i, j]) && child.tables[i, j] == old(child.tables[i, j])
      ensures child.dir[d] && forall i :: 0 <= i < ENTRIES && i != d ==> child.dir[i] == old(child.dir[i])
    {
      child.dir[d] := true;
      var t := 0;
      while t < ENTRIES
        invariant t <= ENTRIES
        invariant forall j :: 0 <= j < t ==> tables[d, j] == child.tables[d, j] == ReadOnly(old(tables[d, j]))
        invariant forall j :: t <= j < ENTRIES ==> tables[d, j] == old(tables[d, j])
        invariant forall i, j :: 0 <= i < ENTRIES && 0 <= j < ENTRIES && i != d ==>
                    tables[i, j] == old(tables[i, j]) && child.tables[i, j] == old(child.tables[i, j])
        invariant child.dir[d] && forall i :: 0 <= i < ENTRIES && i != d ==> child.dir[i] == old(child.dir[i])
      {
        if tables[d, t].Page? {
          tables[d, t] := tables[d, t].(write := false);
          child.tables[d, t] := tables[d, t];
        } else {
          child.tables[d, t] := Empty;
        }
        t := t + 1;
      }
    }
  }

  /** Directory and table index identify the page. */
  lemma SamePage(d: nat, t: nat)
    requires d < ENTRIES && t < ENTRIES
    ensures forall i, j :: 0 <= i < ENTRIES && 0 <= j < ENTRIES && PageOf(i, j) == PageOf(d, t) ==> i == d && j == t
  {
  }
}
