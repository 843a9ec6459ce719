/**
 * The references a page directory holds, counted over a snapshot of physical
 * memory (one row of 1024 words per frame).  Directory d refers to frame f
 * once for every present user entry of d that names f (the page table that
 * pmap_walk took a reference to), and once for every present entry naming f
 * in the page tables those entries name (the pages pmap_insert took a
 * reference to).  The reference counts keep up with these references: that is
 * the invariant the mapping operations preserve.
 */
module PageRefs {
  import opened Mmu

  /** Physical memory, frame by frame. */
  type Memory = seq<seq<u32>>

  /** Memory after word k of frame f is set to e. */
  function Store(M: Memory, f: int, k: int, e: u32): (M': Memory)
    requires 0 <= f < |M| && 0 <= k < |M[f]|
    ensures |M'| == |M| && forall g | 0 <= g < |M| :: |M'[g]| == |M[g]|
    ensures M'[f][k] == e
    ensures forall g, j | 0 <= g < |M| && 0 <= j < |M[g]| && (g, j) != (f, k) :: M'[g][j] == M[g][j]
  {
    var row: seq<u32> := M[f][k := e];
    M[f := row]
  }

  /** 1 when entry e is present and names frame f, and 0 otherwise. */
  function Names(e: u32, f: int): (n: nat)
    ensures n == 1 <==> Present(e) && Frame(e) == f
    ensures n <= 1
  {
    if Present(e) && Frame(e) == f then 1 else 0
  }

  /** The entries of a row that are present and name frame f. */
  function CountRow(row: seq<u32>, f: int): (n: nat)
    ensures n <= |row|
  {
    if row == [] then 0 else Names(row[0], f) + CountRow(row[1..], f)
  }

  /** Storing e in one word of a row trades that word's reference for e's. */
  lemma {:induction false} CountRowUpdate(row: seq<u32>, k: nat, e: u32, f: int)
    requires k < |row|
    ensures CountRow(row[k := e], f) + Names(row[k], f) == CountRow(row, f) + Names(e, f)
  {
    if k == 0 {
      assert row[k := e][1..] == row[1..];
    } else {
      assert row[k := e][1..] == row[1..][k - 1 := e];
      CountRowUpdate(row[1..], k - 1, e, f);
    }
  }

  /** A zeroed row refers to nothing. */
  lemma {:induction false} CountRowBlank(row: seq<u32>, f: int)
    requires forall k | 0 <= k < |row| :: row[k] == 0
    ensures CountRow(row, f) == 0
  {
    if row != [] {
      CountRowBlank(row[1..], f);
    }
  }

  /** A row with a present entry naming f refers to f. */
  lemma {:induction false} CountRowHit(row: seq<u32>, k: nat, f: int)
    requires k < |row| && Present(row[k]) && Frame(row[k]) == f
    ensures CountRow(row, f) >= 1
  {
    if k > 0 {
      CountRowHit(row[1..], k - 1, f);
    }
  }

  /**
   * A directory row d whose present user entries name distinct page tables
   * inside memory, none of them d itself.
   */
  ghost predicate OwnedIn(M: Memory, d: int)
  {
    && 0 <= d < |M|
    && (forall f | 0 <= f < |M| :: |M[f]| == NPTENTRIES)
    && (forall i | UserPdx(i) && Present(M[d][i]) :: Frame(M[d][i]) < |M| && Frame(M[d][i]) != d)
    && (forall i, j | UserPdx(i) && UserPdx(j) && i != j && Present(M[d][i]) && Present(M[d][j]) ::
          Frame(M[d][i]) != Frame(M[d][j]))
  }

  /** The references to f in the page table a directory entry e names. */
  function TableRefs(M: Memory, e: u32, f: int): nat {
    if Present(e) && Frame(e) < |M| then CountRow(M[Frame(e)], f) else 0
  }

  /** The references to f held by the user entries of directory d from index i on. */
  function RefsFrom(M: Memory, d: int, f: int, i: int): nat
    requires 0 <= d < |M| && |M[d]| == NPDENTRIES && USER_PDX_LO <= i <= USER_PDX_HI
    decreases USER_PDX_HI - i
  {
    if i == USER_PDX_HI then 0
    else Names(M[d][i], f) + TableRefs(M, M[d][i], f) + RefsFrom(M, d, f, i + 1)
  }

  /** The references to frame f held by directory d. */
  function Refs(M: Memory, d: int, f: int): nat
    requires 0 <= d < |M| && |M[d]| == NPDENTRIES
  {
    RefsFrom(M, d, f, USER_PDX_LO)
  }

  /**
   * Every frame's count covers the references directory d holds to it, and
   * d's own count holds one more, for whoever holds d.
   */
  ghost predicate CountedIn(M: Memory, rc: seq<nat>, d: int)
  {
    && |rc| == |M| && 0 <= d < |M| && |M[d]| == NPDENTRIES
    && forall f | 0 <= f < |rc| :: rc[f] >= Refs(M, d, f) + (if f == d then 1 else 0)
  }

  /** Raising counts keeps the invariant. */
  lemma CountedMore(M: Memory, rc: seq<nat>, rc': seq<nat>, d: int)
    requires CountedIn(M, rc, d) && |rc'| == |rc| && forall f | 0 <= f < |rc| :: rc'[f] >= rc[f]
    ensures CountedIn(M, rc', d)
  {
  }

  /** Every user entry from index i on, and its page table, adds its references to the count. */
  lemma {:induction false} RefsCover(M: Memory, d: int, f: int, i: int, j: int)
    requires 0 <= d < |M| && |M[d]| == NPDENTRIES && USER_PDX_LO <= i <= j < USER_PDX_HI
    ensures RefsFrom(M, d, f, i) >= Names(M[d][j], f) + TableRefs(M, M[d][j], f)
    decreases j - i
  {
    if i < j {
      RefsCover(M, d, f, i + 1, j);
    }
  }

  /**
   * Under the invariant, a page table of d and a page mapped through d have
   * a positive count, and so has d itself.
   */
  lemma CountedHits(M: Memory, rc: seq<nat>, d: int, i: int)
    requires CountedIn(M, rc, d) && OwnedIn(M, d) && UserPdx(i) && Present(M[d][i])
    ensures rc[d] >= 1
    ensures rc[Frame(M[d][i])] >= 1
    ensures forall k | 0 <= k < NPTENTRIES && Present(M[Frame(M[d][i])][k]) && Frame(M[Frame(M[d][i])][k]) < |rc| ::
              rc[Frame(M[Frame(M[d][i])][k])] >= 1
  {
    var t := Frame(M[d][i]);
    RefsCover(M, d, t, USER_PDX_LO, i);
    forall k | 0 <= k < NPTENTRIES && Present(M[t][k]) && Frame(M[t][k]) < |rc|
      ensures rc[Frame(M[t][k])] >= 1
    {
      var p := Frame(M[t][k]);
      CountRowHit(M[t], k, p);
      RefsCover(M, d, p, USER_PDX_LO, i);
    }
  }

  /** A frame with no count is not among the tables of d. */
  lemma CountedUnnamed(M: Memory, rc: seq<nat>, d: int, t: int)
    requires CountedIn(M, rc, d) && OwnedIn(M, d) && 0 <= t < |rc| && rc[t] == 0
    ensures forall i | UserPdx(i) && Present(M[d][i]) :: Frame(M[d][i]) != t
  {
    forall i | UserPdx(i) && Present(M[d][i])
      ensures Frame(M[d][i]) != t
    {
      CountedHits(M, rc, d, i);
    }
  }

  /** Replacing a row that is neither d nor one of its tables leaves d's references alone. */
  lemma {:induction false} RowUnowned(M: Memory, t: int, r: seq<u32>, d: int, f: int, i: int)
    requires 0 <= t < |M| && t != d && 0 <= d < |M| && |M[d]| == NPDENTRIES
    requires USER_PDX_LO <= i <= USER_PDX_HI
    requires forall j | i <= j < USER_PDX_HI && Present(M[d][j]) :: Frame(M[d][j]) != t
    ensures RefsFrom(M[t := r], d, f, i) == RefsFrom(M, d, f, i)
    decreases USER_PDX_HI - i
  {
    if i < USER_PDX_HI {
      RowUnowned(M, t, r, d, f, i + 1);
      var e := M[d][i];
      assert M[t := r][d] == M[d];
      if Present(e) && Frame(e) < |M| {
        assert M[t := r][Frame(e)] == M[Frame(e)];
      }
    }
  }

  /**
   * Replacing the table that entry i0 of d names changes d's references by
   * the difference between the table's old and new references.
   */
  lemma {:induction false} RowOwned(M: Memory, t: int, r: seq<u32>, d: int, f: int, i: int, i0: int)
    requires OwnedIn(M, d) && |M[d]| == NPDENTRIES
    requires UserPdx(i0) && Present(M[d][i0]) && Frame(M[d][i0]) == t
    requires USER_PDX_LO <= i <= USER_PDX_HI
    ensures RefsFrom(M[t := r], d, f, i) + (if i <= i0 then CountRow(M[t], f) else 0)
         == RefsFrom(M, d, f, i) + (if i <= i0 then CountRow(r, f) else 0)
    decreases USER_PDX_HI - i
  {
    if i < USER_PDX_HI {
      RowOwned(M, t, r, d, f, i + 1, i0);
      var e := M[d][i];
      assert M[t := r][d] == M[d];
      if i != i0 && Present(e) {
        assert M[t := r][Frame(e)] == M[Frame(e)];
      }
    }
  }

  /**
   * Filling the absent entry i0 of d with e adds e's own reference and the
   * references in the table it names.
   */
  lemma {:induction false} DirEntryAdded(M: Memory, d: int, i0: int, e: u32, f: int, i: int)
    requires OwnedIn(M, d) && |M[d]| == NPDENTRIES && UserPdx(i0) && !Present(M[d][i0])
    requires Present(e) && Frame(e) < |M| && Frame(e) != d
    requires USER_PDX_LO <= i <= USER_PDX_HI
    ensures RefsFrom(Store(M, d, i0, e), d, f, i)
         == RefsFrom(M, d, f, i) + (if i <= i0 then Names(e, f) + CountRow(M[Frame(e)], f) else 0)
    decreases USER_PDX_HI - i
  {
    if i < USER_PDX_HI {
      DirEntryAdded(M, d, i0, e, f, i + 1);
      var M' := Store(M, d, i0, e);
      var e' := M'[d][i];
      if Present(e') {
        assert M'[Frame(e')] == M[Frame(e')];
      }
    }
  }

  /**
   * A store of e into word k of a page table of d keeps the invariant when the
   * counts make up for the reference the store adds and the one it drops.
   */
  lemma SlotStoreCounted(M: Memory, rc: seq<nat>, rc': seq<nat>, d: int, i0: int, k: int, e: u32)
    requires CountedIn(M, rc, d) && OwnedIn(M, d)
    requires UserPdx(i0) && Present(M[d][i0]) && 0 <= k < NPTENTRIES
    requires |rc'| == |rc|
    requires forall f | 0 <= f < |rc| ::
               rc'[f] + Names(M[Frame(M[d][i0])][k], f) >= rc[f] + Names(e, f)
    ensures var t := Frame(M[d][i0]);
      CountedIn(Store(M, t, k, e), rc', d) && OwnedIn(Store(M, t, k, e), d)
  {
    var t := Frame(M[d][i0]);
    var M' := Store(M, t, k, e);
    assert M'[d] == M[d];
    forall f | 0 <= f < |rc'|
      ensures rc'[f] >= Refs(M', d, f) + (if f == d then 1 else 0)
    {
      RowOwned(M, t, M'[t], d, f, USER_PDX_LO, i0);
      CountRowUpdate(M[t], k, e, f);
    }
  }

  /**
   * Installing a fresh zeroed table t (one whose count was zero) at the
   * absent entry i0 of d keeps the invariant once t's count has gone up.
   */
  lemma NewTableCounted(M: Memory, rc: seq<nat>, rc': seq<nat>, d: int, i0: int, t: Ppn, z: seq<u32>)
    requires CountedIn(M, rc, d) && OwnedIn(M, d)
    requires UserPdx(i0) && !Present(M[d][i0])
    requires 0 <= t < |rc| && rc[t] == 0 && t != d
    requires |z| == NPTENTRIES && forall k | 0 <= k < NPTENTRIES :: z[k] == 0
    requires |rc'| == |rc| && forall f | 0 <= f < |rc| :: rc'[f] >= rc[f] + (if f == t then 1 else 0)
    ensures var M1 := M[t := z];
      CountedIn(Store(M1, d, i0, TablePde(t)), rc', d) && OwnedIn(Store(M1, d, i0, TablePde(t)), d)
  {
    var M1 := M[t := z];
    var e := TablePde(t);
    var M2 := Store(M1, d, i0, e);
    TablePdeRoundTrip(t);
    CountedUnnamed(M, rc, d, t);
    assert M1[d] == M[d];
    CountRowBlank(z, 0);
    forall f | 0 <= f < |rc'|
      ensures rc'[f] >= Refs(M2, d, f) + (if f == d then 1 else 0)
    {
      RowUnowned(M, t, z, d, f, USER_PDX_LO);
      DirEntryAdded(M1, d, i0, e, f, USER_PDX_LO);
      CountRowBlank(z, f);
    }
  }
}
