// The page table entries of the memory model are what the walk of the two-level tables finds:
// mapping, unmapping and duplicating the tables are the steps of the model on its entries.

module TableView {
  import opened VirtualMemory
  import PT = PageTables

  /** User pages lie below the directory entries of the kernel. */
  const USER_PAGES: nat := PT.KERNEL_TABLE * PT.ENTRIES

  predicate Same(e: PT.Entry, ptes: map<nat, Pte>, v: nat) {
    (e.Page? <==> v in ptes) && (e.Page? && v in ptes ==> ptes[v] == Pte(e.frame, e.write))
  }

  /** The walk of every user page finds the entry that the model records for it. */
  ghost predicate Shows(tables: PT.AddressSpaceTables, ptes: map<nat, Pte>)
    requires tables.Valid()
    reads tables.dir, tables.tables
  {
    && (forall v: nat :: v < USER_PAGES ==> Same(tables.Walk(v), ptes, v))
    && (forall v :: v in ptes ==> v < USER_PAGES)
  }

  method MapInto(tables: PT.AddressSpaceTables, m: Mapping, ghost ptes: map<nat, Pte>)
    requires tables.Valid() && Shows(tables, ptes) && m.pages > 0 && m.virt + m.pages <= USER_PAGES
    modifies tables.dir, tables.tables
    ensures Shows(tables, WithEntries(ptes, m))
  {
    tables.MapPages(m.virt, m.phy, m.pages, m.write, true);
    forall v: nat | v < USER_PAGES
      ensures Same(tables.Walk(v), WithEntries(ptes, m), v)
    {
      assert old(Same(tables.Walk(v), ptes, v));
      assert m.Covers(v) ==> EntryOf(m, v) == Pte(m.phy + (v - m.virt), m.write);
    }
  }

  method UnmapFrom(tables: PT.AddressSpaceTables, m: Mapping, ghost ptes: map<nat, Pte>)
    requires tables.Valid() && Shows(tables, ptes) && m.pages > 0 && m.virt + m.pages <= USER_PAGES
    requires forall v: nat :: m.Covers(v) ==> v in ptes
    modifies tables.dir, tables.tables
    ensures Shows(tables, WithoutEntries(ptes, m))
  {
    TablesPresent(tables, m, ptes);
    tables.UnmapPages(m.virt, m.pages, false);
    forall v: nat | v < USER_PAGES
      ensures Same(tables.Walk(v), WithoutEntries(ptes, m), v)
    {
      assert old(Same(tables.Walk(v), ptes, v));
    }
  }

  /** A mapped range has all its tables. */
  lemma TablesPresent(tables: PT.AddressSpaceTables, m: Mapping, ptes: map<nat, Pte>)
    requires tables.Valid() && Shows(tables, ptes) && m.pages > 0 && m.virt + m.pages <= USER_PAGES
    requires forall v: nat :: m.Covers(v) ==> v in ptes
    ensures forall d :: m.virt / PT.ENTRIES <= d <= (m.virt + m.pages - 1) / PT.ENTRIES ==> tables.dir[d]
  {
    forall d | m.virt / PT.ENTRIES <= d <= (m.virt + m.pages - 1) / PT.ENTRIES
      ensures tables.dir[d]
    {
      var v := if m.virt / PT.ENTRIES == d then m.virt else d * PT.ENTRIES;
      assert v / PT.ENTRIES == d && m.Covers(v);
      assert Same(tables.Walk(v), ptes, v);
    }
  }

  /** Duplicating: parent and child both show the entries without their write permission. */
  method DuplicateBoth(parent: PT.AddressSpaceTables, child: PT.AddressSpaceTables, ghost ptes: map<nat, Pte>)
    requires parent.Valid() && child.Valid() && child.dir != parent.dir && child.tables != parent.tables
    requires Shows(parent, ptes)
    modifies parent.tables, child.dir, child.tables
    ensures Shows(parent, WriteProtected(ptes)) && Shows(child, WriteProtected(ptes))
  {
    parent.DuplicateInto(child);
    forall v: nat | v < USER_PAGES
      ensures Same(parent.Walk(v), WriteProtected(ptes), v) && Same(child.Walk(v), WriteProtected(ptes), v)
    {
      assert old(Same(parent.Walk(v), ptes, v));
      var d, t := v / PT.ENTRIES, v % PT.ENTRIES;
      assert parent.At(d, t) == PT.ReadOnly(old(parent.At(d, t))) && child.At(d, t) == parent.At(d, t);
    }
  }
}
