/**
 * The page-table mapping layer of kern/pmap.c: walking, inserting, looking up
 * and removing the mapping of one user address in a two-level page table, the
 * TLB invalidation that accompanies an edit, and the bootstrap directory.
 *
 * Physical memory is an array of page frames indexed by page number, each frame
 * 1024 words wide, which is the shape of a page directory and of a page table.
 * A page directory is named by the frame that holds it (what a pde_t pointer to
 * it denotes) and a pointer to a page table entry is a Slot: the table's frame
 * and the entry's index.  Each frame has a reference count; the frame allocator
 * (mem_alloc, mem_incref, mem_decref) is represented by its interface: a free
 * list that allocation pops and that a frame whose count drops to zero is pushed
 * onto.  The TLB is represented by the log of addresses handed to invlpg.
 */
module Pmap {
  import opened Wrappers
  import opened Mmu
  import opened PageRefs

  /** A pointer to a page table entry: word `index` of page-table frame `table`. */
  datatype Slot = Slot(table: Ppn, index: int)

  class PhysMem {
    /** mem[f, k] is word k of frame f; the number of rows is mem_npage. */
    const mem: array2<u32>
    /** The reference count of every frame (pageinfo.refcount). */
    const refcount: array<nat>
    /** The allocator's free frames, the next one to be handed out first. */
    var free: seq<Ppn>
    /** The linear addresses whose TLB entries were invalidated, oldest first. */
    ghost var flushed: seq<u32>

    /**
     * One row and one count per frame, and a free list of distinct frames
     * that nobody holds a reference to.
     */
    ghost predicate Valid()
      reads this, refcount
    {
      && mem.Length0 == refcount.Length <= NPAGES
      && mem.Length1 == NPTENTRIES
      && (forall k | 0 <= k < |free| :: free[k] < mem.Length0 && refcount[free[k]] == 0)
      && (forall k, l | 0 <= k < l < |free| :: free[k] != free[l])
    }

    constructor (npage: nat, fresh_free: seq<Ppn>)
      requires npage <= NPAGES
      requires forall k | 0 <= k < |fresh_free| :: fresh_free[k] < npage
      requires forall k, l | 0 <= k < l < |fresh_free| :: fresh_free[k] != fresh_free[l]
      ensures Valid() && fresh(mem) && fresh(refcount)
      ensures mem.Length0 == npage && free == fresh_free && flushed == []
      ensures forall f, k | 0 <= f < npage && 0 <= k < NPTENTRIES :: mem[f, k] == 0
      ensures forall f | 0 <= f < npage :: refcount[f] == 0
    {
      mem := new u32[npage, NPTENTRIES]((_, _) => 0);
      refcount := new nat[npage](_ => 0);
      free := fresh_free;
      flushed := [];
    }

    predicate IsFrame(p: int) {
      0 <= p < mem.Length0
    }

    /**
     * A page directory the walk can follow: a frame whose present user entries
     * refer to frames of physical memory.
     */
    ghost predicate Walkable(d: int)
      reads mem
      requires mem.Length1 == NPTENTRIES
    {
      && IsFrame(d)
      && forall i | UserPdx(i) && Present(mem[d, i]) :: IsFrame(Frame(mem[d, i]))
    }

    /**
     * A page directory in use: walkable, not free, and its present user entries
     * name distinct page tables, none of them the directory itself or a free
     * frame (pmap_walk gives every directory entry a table of its own).
     */
    ghost predicate DirOk(d: int)
      reads this, mem
      requires mem.Length1 == NPTENTRIES
    {
      && Walkable(d)
      && d !in free
      && (forall i | UserPdx(i) && Present(mem[d, i]) :: Frame(mem[d, i]) != d && Frame(mem[d, i]) !in free)
      && (forall i, j | UserPdx(i) && UserPdx(j) && i != j && Present(mem[d, i]) && Present(mem[d, j]) ::
            Frame(mem[d, i]) != Frame(mem[d, j]))
    }

    /** The contents of physical memory, frame by frame. */
    ghost function Image(): (M: Memory)
      reads mem
      requires mem.Length1 == NPTENTRIES
      ensures |M| == mem.Length0 && forall f | 0 <= f < |M| :: |M[f]| == NPTENTRIES
      ensures forall f, k | 0 <= f < |M| && 0 <= k < NPTENTRIES :: M[f][k] == mem[f, k]
    {
      seq(mem.Length0, f requires 0 <= f < mem.Length0 reads mem =>
        seq(NPTENTRIES, k requires 0 <= k < NPTENTRIES reads mem => mem[f, k]))
    }

    /** Rows that agree with mem word by word are its image. */
    lemma ImageIs(M: Memory)
      requires mem.Length1 == NPTENTRIES && |M| == mem.Length0
      requires forall f | 0 <= f < |M| :: |M[f]| == NPTENTRIES
      requires forall f, k | 0 <= f < |M| && 0 <= k < NPTENTRIES :: M[f][k] == mem[f, k]
      ensures Image() == M
    {
      forall f | 0 <= f < |M|
        ensures Image()[f] == M[f]
      {
      }
    }

    /**
     * The reference counts keep up with directory d: every frame's count
     * covers the references d's entries and page tables hold to it, and d's
     * count one more for whoever holds d (PageRefs.CountedIn).
     */
    ghost predicate Counted(d: int)
      reads mem, refcount
      requires mem.Length1 == NPTENTRIES
    {
      CountedIn(Image(), refcount[..], d)
    }

    /** The slot for user address uva that the two-level walk of d reaches, if d's entry is present. */
    ghost function SlotOf(d: int, uva: u32): Option<Slot>
      reads mem
      requires mem.Length1 == NPTENTRIES && Walkable(d) && UserVa(uva)
    {
      var la := LinAddr(uva);
      var pde := mem[d, PDX(la)];
      if Present(pde) then Some(Slot(Frame(pde), PTX(la))) else None
    }

    /** The page mapped at uva in d: the frame of a present entry that lies within physical memory. */
    ghost function Mapping(d: int, uva: u32): Option<Ppn>
      reads mem
      requires mem.Length1 == NPTENTRIES && Walkable(d) && UserVa(uva)
    {
      match SlotOf(d, uva)
      case None => None
      case Some(s) =>
        var e := mem[s.table, s.index];
        if Present(e) && IsFrame(Frame(e)) then Some(Frame(e)) else None
    }

    /** A directory in use is, seen as rows of memory, one whose tables are its own. */
    lemma Owns(d: int)
      requires mem.Length1 == NPTENTRIES && DirOk(d)
      ensures OwnedIn(Image(), d)
    {
    }

    /**
     * Under the invariant, the page mapped at uva has a positive count, so the
     * mem_decref of pmap_remove never underflows.
     */
    lemma Held(d: Ppn, uva: u32)
      requires Valid() && DirOk(d) && Counted(d) && UserVa(uva)
      ensures Mapping(d, uva).Some? ==> refcount[Mapping(d, uva).value] > 0
    {
      if Mapping(d, uva).Some? {
        Owns(d);
        CountedHits(Image(), refcount[..], d, PDX(LinAddr(uva)));
      }
    }

    /**
     * Under the invariant neither d nor any of its page tables can be free:
     * each has a positive count, and free frames have none.
     */
    lemma Unfree(d: Ppn)
      requires Valid() && Counted(d) && OwnedIn(Image(), d)
      ensures DirOk(d)
    {
      var M, rc := Image(), refcount[..];
      assert rc[d] >= 1;
      forall i | UserPdx(i) && Present(mem[d, i])
        ensures Frame(mem[d, i]) !in free
      {
        CountedHits(M, rc, d, i);
      }
    }

    // -----------------------------------------------------------------
    // The frame allocator's interface
    // -----------------------------------------------------------------

    /** mem_alloc: the next free frame, or nothing when memory is exhausted. */
    method Alloc() returns (p: Option<Ppn>)
      requires Valid()
      modifies this
      ensures Valid() && flushed == old(flushed)
      ensures p.None? <==> old(free) == []
      ensures p.None? ==> unchanged(this)
      ensures p.Some? ==> p.value == old(free[0]) && free == old(free[1..])
    {
      if free == [] {
        p := None;
      } else {
        p := Some(free[0]);
        free := free[1..];
      }
    }

    /** mem_incref: one more reference to an allocated frame. */
    method Incref(p: Ppn)
      requires Valid() && IsFrame(p) && p !in free
      modifies refcount
      ensures Valid()
      ensures refcount[..] == old(refcount[..])[p := old(refcount[p]) + 1]
    {
      refcount[p] := refcount[p] + 1;
    }

    /** mem_decref: one reference fewer; a frame left with none goes back on the free list. */
    method Decref(p: Ppn)
      requires Valid() && IsFrame(p) && refcount[p] > 0
      modifies this, refcount
      ensures Valid() && flushed == old(flushed)
      ensures refcount[..] == old(refcount[..])[p := old(refcount[p]) - 1]
      ensures free == if old(refcount[p]) == 1 then [p] + old(free) else old(free)
    {
      refcount[p] := refcount[p] - 1;
      if refcount[p] == 0 {
        free := [p] + free;
      }
    }

    // -----------------------------------------------------------------
    // pmap_walk, pmap_lookup, pmap_invl, pmap_remove, pmap_insert
    // -----------------------------------------------------------------

    /** A page of zeros. */
    static function BlankRow(): (z: seq<u32>)
      ensures |z| == NPTENTRIES && forall k | 0 <= k < NPTENTRIES :: z[k] == 0
    {
      seq(NPTENTRIES, _ => 0)
    }

    /** memset(page, 0, PAGESIZE) on frame t: all of its words become zero, and no other frame changes. */
    method ClearFrame(t: Ppn)
      requires IsFrame(t) && mem.Length1 == NPTENTRIES
      modifies mem
      ensures forall k | 0 <= k < NPTENTRIES :: mem[t, k] == 0
      ensures forall f, k | 0 <= f < mem.Length0 && 0 <= k < NPTENTRIES && f != t :: mem[f, k] == old(mem[f, k])
    {
      var k := 0;
      while k < NPTENTRIES
        invariant 0 <= k <= NPTENTRIES
        invariant forall j | 0 <= j < k :: mem[t, j] == 0
        invariant forall f, j | 0 <= f < mem.Length0 && 0 <= j < NPTENTRIES && f != t :: mem[f, j] == old(mem[f, j])
      {
        mem[t, k] := 0;
        k := k + 1;
      }
    }

    /** A store of e into word k of frame f: that word changes, and no other. */
    method WriteWord(f: int, k: int, e: u32)
      requires IsFrame(f) && 0 <= k < NPTENTRIES && mem.Length1 == NPTENTRIES
      modifies mem
      ensures mem[f, k] == e
      ensures forall g, j | 0 <= g < mem.Length0 && 0 <= j < NPTENTRIES && (g, j) != (f, k) :: mem[g, j] == old(mem[g, j])
    {
      mem[f, k] := e;
    }

    /**
     * The walk of pmap_walk without creation: the slot of the entry for uva when
     * d's directory entry for it is present, and nothing otherwise.
     */
    method Find(d: Ppn, uva: u32) returns (pte: Option<Slot>)
      requires mem.Length1 == NPTENTRIES && Walkable(d) && UserVa(uva)
      ensures pte == SlotOf(d, uva)
      ensures pte.Some? ==> IsFrame(pte.value.table) && 0 <= pte.value.index < NPTENTRIES
    {
      var la := LinAddr(uva);
      var i := PDX(la);
      if Present(mem[d, i]) {
        return Some(Slot(Frame(mem[d, i]), PTX(la)));
      }
      return None;
    }

    /**
     * pmap_walk: the slot of the page table entry for uva in directory d.  When
     * d has no page table there, a creating walk allocates one, takes a
     * reference to it, clears it, and installs a permissive entry for it.
     */
    method Walk(d: Ppn, uva: u32, create: bool) returns (pte: Option<Slot>)
      requires Valid() && DirOk(d) && Counted(d) && UserVa(uva)
      modifies this, mem, refcount
      ensures Valid() && DirOk(d) && Counted(d) && flushed == old(flushed)
      // a non-creating walk, a walk over a present entry and a failed walk change nothing
      ensures !create || old(SlotOf(d, uva)).Some? || pte.None? ==>
                unchanged(this, mem, refcount)
      // the walk fails exactly when the entry is absent and it may not, or cannot, allocate
      ensures pte.None? <==> old(SlotOf(d, uva)).None? && (!create || old(free) == [])
      ensures pte.Some? ==> pte == SlotOf(d, uva)
      ensures old(SlotOf(d, uva)).Some? ==> pte == old(SlotOf(d, uva))
      // a walk never changes the page any address of d maps to
      ensures forall a | UserVa(a) :: Mapping(d, a) == old(Mapping(d, a))
      // what a creating walk did
      ensures old(SlotOf(d, uva)).None? && pte.Some? ==>
                var t, i := pte.value.table, PDX(LinAddr(uva));
                && old(free) != [] && t == old(free[0]) && free == old(free[1..])
                && (forall f | 0 <= f < refcount.Length :: refcount[f] == old(refcount[f]) + (if f == t then 1 else 0))
                && (forall k | 0 <= k < NPTENTRIES :: mem[t, k] == 0)
                && mem[d, i] == TablePde(t)
                && (forall f, k | 0 <= f < mem.Length0 && 0 <= k < NPTENTRIES && f != t && (f, k) != (d, i) ::
                      mem[f, k] == old(mem[f, k]))
    {
      pte := Find(d, uva);
      if pte.Some? || !create {
        return;
      }
      ghost var M, rc := Image(), refcount[..];
      var la := LinAddr(uva);
      var i := PDX(la);
      var pi := Alloc();
      if pi.None? {
        return None;
      }
      var t := pi.value;
      Owns(d);
      CountedUnnamed(M, rc, d, t);
      AddTable(d, i, t);
      pte := Some(Slot(t, PTX(la)));
      NewTableCounted(M, rc, refcount[..], d, i, t, BlankRow());
      Unfree(d);
    }

    /**
     * The creating half of pmap_walk: take a reference to the fresh frame t,
     * clear it, and enter it in d's absent entry i with every permission.
     */
    method AddTable(d: Ppn, i: int, t: Ppn)
      requires Valid() && Walkable(d) && UserPdx(i) && !Present(mem[d, i])
      requires IsFrame(t) && t != d && t !in free
      requires forall j | UserPdx(j) && Present(mem[d, j]) :: Frame(mem[d, j]) != t && Frame(mem[d, j]) != d
      modifies mem, refcount
      ensures Valid() && Walkable(d)
      ensures refcount[..] == old(refcount[..])[t := old(refcount[t]) + 1]
      ensures forall k | 0 <= k < NPTENTRIES :: mem[t, k] == 0
      ensures mem[d, i] == TablePde(t) && Present(mem[d, i]) && Frame(mem[d, i]) == t
      ensures forall f, k | 0 <= f < mem.Length0 && 0 <= k < NPTENTRIES && f != t && (f, k) != (d, i) ::
                mem[f, k] == old(mem[f, k])
      ensures Image() == Store(old(Image())[t := BlankRow()], d, i, TablePde(t))
      // the new table maps nothing, and the old ones are untouched
      ensures forall a | UserVa(a) :: Mapping(d, a) == old(Mapping(d, a))
    {
      ghost var M := Image();
      Incref(t);
      ClearFrame(t);
      TablePdeRoundTrip(t);
      WriteWord(d, i, TablePde(t));
      ImageIs(Store(M[t := BlankRow()], d, i, TablePde(t)));
    }

    /**
     * pmap_lookup: the page mapped at uva, and the slot of its entry (what is
     * written to *pte_store).  A missing table or a zero entry gives neither.  A
     * nonzero entry that is not present, or that names a frame beyond physical
     * memory, is bogus: its slot has already been stored, but no page is returned.
     */
    method Lookup(d: Ppn, uva: u32) returns (pi: Option<Ppn>, store: Option<Slot>)
      requires Valid() && Walkable(d) && UserVa(uva)
      ensures pi == Mapping(d, uva)
      ensures store.None? <==> SlotOf(d, uva).None? || mem[SlotOf(d, uva).value.table, SlotOf(d, uva).value.index] == 0
      ensures store.Some? ==> store == SlotOf(d, uva)
      ensures pi.Some? ==> store.Some?
    {
      var pte := Find(d, uva);
      if pte.None? || mem[pte.value.table, pte.value.index] == 0 {
        return None, None;
      }
      store := pte;
      var e := mem[pte.value.table, pte.value.index];
      if !Present(e) || Frame(e) >= mem.Length0 {
        return None, store;
      }
      pi := Some(Frame(e));
    }

    /**
     * pmap_invl: invalidate the TLB entry of linear address PMAP_LINUSER + uva,
     * but only when no process is running or d is the running process's page
     * directory; cur is that directory.
     */
    method Invl(d: Ppn, uva: u32, cur: Option<Ppn>)
      modifies this
      ensures free == old(free)
      ensures cur.None? || cur.value == d ==> flushed == old(flushed) + [LinAddr(uva)]
      ensures cur.Some? && cur.value != d ==> flushed == old(flushed)
    {
      if cur.None? || cur.value == d {
        flushed := flushed + [LinAddr(uva)];
      }
    }

    /**
     * A store through a pointer to a page table entry of d (*pte = e).  The
     * table is not d itself, so d's directory entries, and the page every other
     * slot maps, stay as they were.
     */
    method SetSlot(d: Ppn, s: Slot, e: u32)
      requires mem.Length1 == NPTENTRIES && Walkable(d)
      requires IsFrame(s.table) && s.table != d && 0 <= s.index < NPTENTRIES
      modifies mem
      ensures mem[s.table, s.index] == e
      ensures forall f, k | 0 <= f < mem.Length0 && 0 <= k < NPTENTRIES && (f, k) != (s.table, s.index) ::
                mem[f, k] == old(mem[f, k])
      ensures Walkable(d)
      ensures forall a | UserVa(a) :: SlotOf(d, a) == old(SlotOf(d, a))
      ensures forall a | UserVa(a) && SlotOf(d, a) != Some(s) :: Mapping(d, a) == old(Mapping(d, a))
    {
      WriteWord(s.table, s.index, e);
    }

    /**
     * pmap_remove: unmap the page at uva.  With no valid mapping there it does
     * nothing; otherwise it zeroes the entry, invalidates the address, and drops
     * the page's reference, which frees the page if it was the last one.
     */
    method Remove(d: Ppn, uva: u32, cur: Option<Ppn>)
      requires Valid() && DirOk(d) && Counted(d) && UserVa(uva)
      modifies this, mem, refcount
      ensures Valid() && DirOk(d) && Counted(d)
      ensures old(Mapping(d, uva)).None? ==> unchanged(this, mem, refcount)
      ensures Mapping(d, uva).None?
      // the page mapped at uva, if any, loses a reference
      ensures forall f | 0 <= f < refcount.Length ::
                refcount[f] + (if old(Mapping(d, uva)) == Some(f) then 1 else 0) == old(refcount[f])
      ensures old(Mapping(d, uva)).Some? ==>
                var p, s := old(Mapping(d, uva)).value, old(SlotOf(d, uva)).value;
                && mem[s.table, s.index] == 0
                && free == (if old(refcount[p]) == 1 then [p] + old(free) else old(free))
                && flushed == old(flushed) + (if cur.None? || cur.value == d then [LinAddr(uva)] else [])
      // only the entry's word changes
      ensures old(Mapping(d, uva)).Some? ==>
                var s := old(SlotOf(d, uva)).value;
                forall f, k | 0 <= f < mem.Length0 && 0 <= k < NPTENTRIES && (f, k) != (s.table, s.index) ::
                  mem[f, k] == old(mem[f, k])
      // the directory keeps its entries, so every other slot keeps its page
      ensures forall a | UserVa(a) :: SlotOf(d, a) == old(SlotOf(d, a))
      ensures forall a | UserVa(a) && SlotOf(d, a) != old(SlotOf(d, uva)) :: Mapping(d, a) == old(Mapping(d, a))
    {
      ghost var M, rc := Image(), refcount[..];
      var pi, pte := Lookup(d, uva);
      if pi.None? {
        return;
      }
      Held(d, uva);
      Owns(d);
      assert M[d][PDX(LinAddr(uva))] == mem[d, PDX(LinAddr(uva))];
      assert M[pte.value.table][pte.value.index] == mem[pte.value.table, pte.value.index];
      Unmap(d, uva, pte.value, pi.value, cur);
      RemoveCounted(M, rc, d, uva, pte.value, pi.value);
    }

    /**
     * The work of pmap_remove once the entry for uva is found in slot s and
     * maps page p: zero the entry, invalidate the address, drop p's reference.
     */
    method Unmap(d: Ppn, uva: u32, s: Slot, p: Ppn, cur: Option<Ppn>)
      requires Valid() && Walkable(d) && UserVa(uva) && s.table != d
      requires SlotOf(d, uva) == Some(s) && Mapping(d, uva) == Some(p) && refcount[p] > 0
      modifies this, mem, refcount
      ensures Valid() && Walkable(d) && Mapping(d, uva).None?
      ensures mem[s.table, s.index] == 0
      ensures forall f | 0 <= f < refcount.Length :: refcount[f] + (if f == p then 1 else 0) == old(refcount[f])
      ensures free == (if old(refcount[p]) == 1 then [p] + old(free) else old(free))
      ensures flushed == old(flushed) + (if cur.None? || cur.value == d then [LinAddr(uva)] else [])
      ensures forall f, k | 0 <= f < mem.Length0 && 0 <= k < NPTENTRIES && (f, k) != (s.table, s.index) ::
                mem[f, k] == old(mem[f, k])
      ensures forall a | UserVa(a) :: SlotOf(d, a) == old(SlotOf(d, a))
      ensures forall a | UserVa(a) && SlotOf(d, a) != Some(s) :: Mapping(d, a) == old(Mapping(d, a))
    {
      SetSlot(d, s, 0);
      assert Mapping(d, uva).None?;
      Invl(d, uva, cur);
      Decref(p);
    }

    /** The counts after pmap_remove still keep up with d: the reference the entry held went with it. */
    lemma RemoveCounted(M: Memory, rc: seq<nat>, d: Ppn, uva: u32, s: Slot, p: Ppn)
      requires Valid() && mem.Length1 == NPTENTRIES && UserVa(uva)
      requires CountedIn(M, rc, d) && OwnedIn(M, d) && |M| == mem.Length0
      requires var i := PDX(LinAddr(uva)); Present(M[d][i]) && s == Slot(Frame(M[d][i]), PTX(LinAddr(uva)))
      requires 0 <= p < |rc| && 0 <= s.index < NPTENTRIES && Present(M[s.table][s.index]) && Frame(M[s.table][s.index]) == p
      requires mem[s.table, s.index] == 0
      requires forall f, k | 0 <= f < |M| && 0 <= k < NPTENTRIES && (f, k) != (s.table, s.index) :: mem[f, k] == M[f][k]
      requires forall f | 0 <= f < |rc| :: refcount[f] + (if f == p then 1 else 0) == rc[f]
      ensures Counted(d) && DirOk(d)
    {
      ImageIs(Store(M, s.table, s.index, 0));
      SlotStoreCounted(M, rc, refcount[..], d, PDX(LinAddr(uva)), s.index, 0);
      Unfree(d);
    }

    /**
     * pmap_insert: map page pi at uva with permissions perm | PTE_P, creating the
     * page table when needed.  The new page's reference is taken before the page
     * mapped at uva, if any, is removed, so re-inserting the page already there
     * cannot free it.
     */
    method Insert(d: Ppn, pi: Ppn, uva: u32, perm: int, cur: Option<Ppn>) returns (pte: Option<Slot>)
      requires Valid() && DirOk(d) && Counted(d) && UserVa(uva)
      requires IsFrame(pi) && pi !in free && 0 <= perm < PGSIZE
      modifies this, mem, refcount
      ensures Valid() && DirOk(d) && Counted(d)
      // the walk failed: no table and no memory for one
      ensures pte.None? <==> old(SlotOf(d, uva)).None? && old(free) == []
      ensures pte.None? ==> unchanged(this, mem, refcount)
      // the slot holds phys(pi) | perm | PTE_P, and uva now maps pi
      ensures pte.Some? ==>
                && pte == SlotOf(d, uva)
                && mem[pte.value.table, pte.value.index] == MakeEntry(pi, perm)
                && Mapping(d, uva) == Some(pi)
      ensures old(SlotOf(d, uva)).Some? ==> pte == old(SlotOf(d, uva))
      // pi gains a reference, a table made for uva gains one, and the page mapped before loses one
      ensures pte.Some? ==>
                forall f | 0 <= f < refcount.Length ::
                  refcount[f] + (if old(Mapping(d, uva)) == Some(f) then 1 else 0) ==
                  old(refcount[f]) + (if f == pi then 1 else 0)
                                   + (if old(SlotOf(d, uva)).None? && f == pte.value.table then 1 else 0)
      // the new table came off the free list; the page mapped before goes on it at zero
      ensures pte.Some? ==>
                var q := old(Mapping(d, uva));
                free == if old(SlotOf(d, uva)).None? then old(free[1..])
                        else if q.Some? && q.value != pi && old(refcount[q.value]) == 1 then [q.value] + old(free)
                        else old(free)
      // the TLB entry is invalidated exactly when a page was mapped there and d is in use
      ensures flushed == old(flushed) +
                (if old(Mapping(d, uva)).Some? && (cur.None? || cur.value == d) then [LinAddr(uva)] else [])
      // over an existing table only the entry's word changes, and every address keeps its slot
      ensures old(SlotOf(d, uva)).Some? ==>
                && (forall f, k | 0 <= f < mem.Length0 && 0 <= k < NPTENTRIES && (f, k) != (pte.value.table, pte.value.index) ::
                      mem[f, k] == old(mem[f, k]))
                && (forall a | UserVa(a) :: SlotOf(d, a) == old(SlotOf(d, a)))
      // a new table is the first free frame, zero but for the entry, and besides it only d's entry for it changes
      ensures old(SlotOf(d, uva)).None? && pte.Some? ==>
                var t, i := pte.value.table, PDX(LinAddr(uva));
                && old(free) != [] && t == old(free[0])
                && mem[d, i] == TablePde(t)
                && (forall k | 0 <= k < NPTENTRIES && k != pte.value.index :: mem[t, k] == 0)
                && (forall f, k | 0 <= f < mem.Length0 && 0 <= k < NPTENTRIES && f != t && (f, k) != (d, i) ::
                      mem[f, k] == old(mem[f, k]))
      // every address of d that does not share the slot keeps its page
      ensures pte.Some? ==>
                forall a | UserVa(a) && SlotOf(d, a) != pte :: Mapping(d, a) == old(Mapping(d, a))
    {
      pte := Walk(d, uva, true);
      if pte.None? {
        return;
      }
      Install(d, uva, pte.value, pi, perm, cur);
    }

    /**
     * The second half of pmap_insert, once the walk has found slot s for uva:
     * take pi's reference, remove whatever page is mapped at uva, and store
     * phys(pi) | perm | PTE_P in the slot.  The reference is taken first, so
     * that removing pi itself cannot free it.
     */
    method Install(d: Ppn, uva: u32, s: Slot, pi: Ppn, perm: int, cur: Option<Ppn>)
      requires Valid() && DirOk(d) && Counted(d) && UserVa(uva) && SlotOf(d, uva) == Some(s)
      requires IsFrame(pi) && pi !in free && 0 <= perm < PGSIZE
      modifies this, mem, refcount
      ensures Valid() && DirOk(d) && Counted(d)
      ensures SlotOf(d, uva) == Some(s) && mem[s.table, s.index] == MakeEntry(pi, perm)
      ensures Mapping(d, uva) == Some(pi)
      // pi gains a reference, and the page mapped at uva before, if any, loses one
      ensures forall f | 0 <= f < refcount.Length ::
                refcount[f] + (if old(Mapping(d, uva)) == Some(f) then 1 else 0) == old(refcount[f]) + (if f == pi then 1 else 0)
      // that page is freed when it lost its last reference
      ensures var q := old(Mapping(d, uva));
                free == if q.Some? && q.value != pi && old(refcount[q.value]) == 1 then [q.value] + old(free) else old(free)
      ensures flushed == old(flushed) +
                (if old(Mapping(d, uva)).Some? && (cur.None? || cur.value == d) then [LinAddr(uva)] else [])
      // only the entry's word changes
      ensures forall f, k | 0 <= f < mem.Length0 && 0 <= k < NPTENTRIES && (f, k) != (s.table, s.index) ::
                mem[f, k] == old(mem[f, k])
      ensures forall a | UserVa(a) :: SlotOf(d, a) == old(SlotOf(d, a))
      ensures forall a | UserVa(a) && SlotOf(d, a) != Some(s) :: Mapping(d, a) == old(Mapping(d, a))
    {
      ghost var M, rc, q := Image(), refcount[..], Mapping(d, uva);
      Owns(d);
      assert M[d][PDX(LinAddr(uva))] == mem[d, PDX(LinAddr(uva))] && M[s.table][s.index] == mem[s.table, s.index];
      Displace(d, uva, s, pi, cur);
      EntryRoundTrip(pi, perm);
      SetSlot(d, s, MakeEntry(pi, perm));
      InstallCounted(M, rc, d, uva, s, pi, perm, q);
    }

    /**
     * Lines 170-174 of pmap_insert: take pi's reference, then remove the page
     * mapped at uva if its entry is present.  Afterwards uva maps nothing.
     */
    method Displace(d: Ppn, uva: u32, s: Slot, pi: Ppn, cur: Option<Ppn>)
      requires Valid() && DirOk(d) && Counted(d) && UserVa(uva) && SlotOf(d, uva) == Some(s)
      requires IsFrame(pi) && pi !in free
      modifies this, mem, refcount
      ensures Valid() && Walkable(d) && SlotOf(d, uva) == Some(s) && Mapping(d, uva).None?
      // pi gains a reference, and the page mapped at uva before, if any, loses one
      ensures forall f | 0 <= f < refcount.Length ::
                refcount[f] + (if old(Mapping(d, uva)) == Some(f) then 1 else 0) == old(refcount[f]) + (if f == pi then 1 else 0)
      // that page is freed when it lost its last reference
      ensures var q := old(Mapping(d, uva));
                free == if q.Some? && q.value != pi && old(refcount[q.value]) == 1 then [q.value] + old(free) else old(free)
      ensures flushed == old(flushed) +
                (if old(Mapping(d, uva)).Some? && (cur.None? || cur.value == d) then [LinAddr(uva)] else [])
      ensures forall f, k | 0 <= f < mem.Length0 && 0 <= k < NPTENTRIES && (f, k) != (s.table, s.index) ::
                mem[f, k] == old(mem[f, k])
      ensures forall a | UserVa(a) :: SlotOf(d, a) == old(SlotOf(d, a))
      ensures forall a | UserVa(a) && SlotOf(d, a) != Some(s) :: Mapping(d, a) == old(Mapping(d, a))
    {
      ghost var rc := refcount[..];
      Held(d, uva);
      Incref(pi);
      CountedMore(Image(), rc, refcount[..], d);
      if Present(mem[s.table, s.index]) {
        Remove(d, uva, cur);
      }
    }

    /**
     * The counts after the store of pmap_insert still keep up with d: pi's new
     * reference was taken, and the page q the entry mapped, if any, lost its
     * reference.
     */
    lemma InstallCounted(M: Memory, rc: seq<nat>, d: Ppn, uva: u32, s: Slot, pi: Ppn, perm: int, q: Option<Ppn>)
      requires Valid() && mem.Length1 == NPTENTRIES && UserVa(uva) && 0 <= perm < PGSIZE
      requires CountedIn(M, rc, d) && OwnedIn(M, d) && |M| == mem.Length0
      requires var i := PDX(LinAddr(uva)); Present(M[d][i]) && s == Slot(Frame(M[d][i]), PTX(LinAddr(uva)))
      requires 0 <= pi < |rc| && 0 <= s.index < NPTENTRIES
      requires mem[s.table, s.index] == MakeEntry(pi, perm)
      requires forall f, k | 0 <= f < |M| && 0 <= k < NPTENTRIES && (f, k) != (s.table, s.index) :: mem[f, k] == M[f][k]
      requires var e := M[s.table][s.index]; q == if Present(e) && Frame(e) < |M| then Some(Frame(e)) else None
      requires forall f | 0 <= f < |rc| :: refcount[f] + (if q == Some(f) then 1 else 0) == rc[f] + (if f == pi then 1 else 0)
      ensures Counted(d) && DirOk(d)
    {
      var e, E := M[s.table][s.index], MakeEntry(pi, perm);
      EntryRoundTrip(pi, perm);
      ImageIs(Store(M, s.table, s.index, E));
      forall f | 0 <= f < |rc|
        ensures refcount[f] + Names(e, f) >= rc[f] + Names(E, f)
      {
      }
      SlotStoreCounted(M, rc, refcount[..], d, PDX(LinAddr(uva)), s.index, E);
      Unfree(d);
    }
  }

  /**
   * One page shared by two addresses of d, then released: pmap_insert at a1
   * and at a2 takes its count to 1 and 2; pmap_remove of a1 brings it to 1
   * while a2 still maps the page, and pmap_remove of a2 to 0, which puts it
   * at the head of the free list, so that mem_alloc hands it out next.  Each
   * call can follow the one before because the operations keep DirOk and
   * Counted.  Both addresses already have page tables, and the page starts
   * allocated but unmapped, as a page fresh from mem_alloc is.
   */
  method ShareAndRelease(m: PhysMem, d: Ppn, pi: Ppn, a1: u32, a2: u32, perm: int, cur: Option<Ppn>)
      returns (c1: nat, c2: nat, c3: nat, gone: Option<Ppn>, kept: Option<Ppn>, c4: nat)
    requires m.Valid() && m.DirOk(d) && m.Counted(d) && UserVa(a1) && UserVa(a2)
    requires m.SlotOf(d, a1).Some? && m.SlotOf(d, a2).Some? && m.SlotOf(d, a1) != m.SlotOf(d, a2)
    requires m.Mapping(d, a1).None? && m.Mapping(d, a2).None?
    requires m.IsFrame(pi) && pi !in m.free && m.refcount[pi] == 0 && 0 <= perm < PGSIZE
    modifies m, m.mem, m.refcount
    ensures m.Valid() && m.DirOk(d) && m.Counted(d)
    ensures c1 == 1 && c2 == 2 && c3 == 1 && c4 == 0
    ensures gone.None? && kept == Some(pi)
    ensures m.free != [] && m.free[0] == pi
    ensures m.Mapping(d, a1).None? && m.Mapping(d, a2).None?
  {
    c1, c2 := Share(m, d, pi, a1, a2, perm, cur);
    c3, gone, kept, c4 := Release(m, d, pi, a1, a2, cur);
  }

  /**
   * The first insert of pmap_check: with no page table for a and no free
   * frame the insert fails; otherwise the first free frame becomes the table,
   * a maps pi, and both pi and the table have one reference.
   */
  method InsertWithTable(m: PhysMem, d: Ppn, pi: Ppn, a: u32, perm: int, cur: Option<Ppn>)
      returns (pte: Option<Slot>, table: Ppn, cp: nat, ct: nat)
    requires m.Valid() && m.DirOk(d) && m.Counted(d) && UserVa(a) && m.SlotOf(d, a).None?
    requires m.IsFrame(pi) && pi !in m.free && m.refcount[pi] == 0 && 0 <= perm < PGSIZE
    modifies m, m.mem, m.refcount
    ensures m.Valid() && m.DirOk(d) && m.Counted(d)
    ensures pte.None? <==> old(m.free) == []
    ensures pte.Some? ==>
              && table == old(m.free[0]) && pte.value.table == table
              && m.Mapping(d, a) == Some(pi)
              && cp == 1 && ct == 1
  {
    ghost var t0 := if m.free == [] then 0 else m.free[0];
    assert m.free != [] ==> m.refcount[t0] == 0;
    pte := m.Insert(d, pi, a, perm, cur);
    if pte.None? {
      return pte, 0, 0, 0;
    }
    table := pte.value.table;
    cp, ct := m.refcount[pi], m.refcount[table];
  }

  /** The two pmap_insert calls of ShareAndRelease. */
  method Share(m: PhysMem, d: Ppn, pi: Ppn, a1: u32, a2: u32, perm: int, cur: Option<Ppn>)
      returns (c1: nat, c2: nat)
    requires m.Valid() && m.DirOk(d) && m.Counted(d) && UserVa(a1) && UserVa(a2)
    requires m.SlotOf(d, a1).Some? && m.SlotOf(d, a2).Some? && m.SlotOf(d, a1) != m.SlotOf(d, a2)
    requires m.Mapping(d, a1).None? && m.Mapping(d, a2).None?
    requires m.IsFrame(pi) && pi !in m.free && m.refcount[pi] == 0 && 0 <= perm < PGSIZE
    modifies m, m.mem, m.refcount
    ensures m.Valid() && m.DirOk(d) && m.Counted(d)
    ensures c1 == 1 && c2 == 2 && m.refcount[pi] == 2
    ensures m.SlotOf(d, a1).Some? && m.SlotOf(d, a2).Some? && m.SlotOf(d, a1) != m.SlotOf(d, a2)
    ensures m.Mapping(d, a1) == Some(pi) && m.Mapping(d, a2) == Some(pi)
  {
    var s1 := m.Insert(d, pi, a1, perm, cur);
    c1 := m.refcount[pi];
    assert c1 == 1;
    assert m.SlotOf(d, a2).Some? && m.SlotOf(d, a2) != s1 && m.Mapping(d, a2).None? && pi !in m.free;
    var s2 := m.Insert(d, pi, a2, perm, cur);
    c2 := m.refcount[pi];
    assert m.Mapping(d, a1) == Some(pi) && m.SlotOf(d, a1) != s2;
  }

  /**
   * The two pmap_remove calls of ShareAndRelease, with the lookups between
   * them: a1 then maps nothing (gone) while a2 still maps the page (kept).
   */
  method Release(m: PhysMem, d: Ppn, pi: Ppn, a1: u32, a2: u32, cur: Option<Ppn>)
      returns (c3: nat, gone: Option<Ppn>, kept: Option<Ppn>, c4: nat)
    requires m.Valid() && m.DirOk(d) && m.Counted(d) && UserVa(a1) && UserVa(a2)
    requires m.SlotOf(d, a1).Some? && m.SlotOf(d, a2).Some? && m.SlotOf(d, a1) != m.SlotOf(d, a2)
    requires m.Mapping(d, a1) == Some(pi) && m.Mapping(d, a2) == Some(pi) && m.refcount[pi] == 2
    modifies m, m.mem, m.refcount
    ensures m.Valid() && m.DirOk(d) && m.Counted(d)
    ensures c3 == 1 && c4 == 0
    ensures gone.None? && kept == Some(pi)
    ensures m.free != [] && m.free[0] == pi
    ensures m.Mapping(d, a1).None? && m.Mapping(d, a2).None?
  {
    m.Remove(d, a1, cur);
    c3 := m.refcount[pi];
    assert c3 == 1 && m.Mapping(d, a2) == Some(pi);
    var slot;
    gone, slot := m.Lookup(d, a1);
    kept, slot := m.Lookup(d, a2);
    m.Remove(d, a2, cur);
    c4 := m.refcount[pi];
  }

  /**
   * The bootstrap directory fill of pmap_init, run on the boot CPU only: every
   * slot outside the user window [PDX(PMAP_LINUSER), PDX(PMAP_LINHIGH)) maps its
   * own 4 MB region with a global, writable large page; the user window's
   * slots are skipped by a jump of the loop index.
   */
  method InitBootDir(bootpdir: array<u32>, onboot: bool)
    requires bootpdir.Length == NPDENTRIES
    modifies bootpdir
    ensures !onboot ==> bootpdir[..] == old(bootpdir[..])
    ensures onboot ==> forall i | 0 <= i < NPDENTRIES && !UserPdx(i) :: bootpdir[i] == BootPde(i)
    ensures forall i | UserPdx(i) :: bootpdir[i] == old(bootpdir[i])
  {
    if onboot {
      var i := 0;
      while i < NPDENTRIES
        invariant 0 <= i <= NPDENTRIES
        invariant i <= USER_PDX_LO || USER_PDX_HI < i
        invariant forall k | 0 <= k < i && !UserPdx(k) :: bootpdir[k] == BootPde(k)
        invariant forall k | UserPdx(k) || i <= k < NPDENTRIES :: bootpdir[k] == old(bootpdir[k])
      {
        if i == USER_PDX_LO {   // skip the user area
          i := USER_PDX_HI;
        }
        bootpdir[i] := BootPde(i);
        i := i + 1;
      }
    }
  }
}
