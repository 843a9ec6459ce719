/**
 * The x86 32-bit two-level paging layout used by the mapping layer: entry
 * flags, the split of a linear address into directory index, table index and
 * offset, and the kernel's linear-address window for user space.  The layout is
 * that of section 4.3 ("32-Bit Paging") of the Intel 64 and IA-32 Architectures
 * Software Developer's Manual, Volume 3A.
 *
 * Words are unsigned 32-bit values held as integers in [0, 2^32).  A shift
 * right by n is a division by 2^n, a mask of the low n bits a remainder modulo
 * 2^n, and or-ing in a single-bit flag that is not yet set is an addition; for
 * unsigned words these agree with the C operators bit for bit.
 */
module Mmu {

  const WORD: int := 0x1_0000_0000          // 2^32
  type u32 = x: int | 0 <= x < WORD

  const PGSIZE: int := 4096                 // bytes per page; PTXSHIFT = 12
  const PTSIZE: int := 0x40_0000            // bytes mapped by a directory entry; PDXSHIFT = 22
  const NPDENTRIES: int := 1024             // entries in a page directory
  const NPTENTRIES: int := 1024             // entries in a page table
  const NPAGES: int := 0x10_0000            // page numbers of a 32-bit physical address space

  /** A physical page number: a physical address shifted right by 12. */
  type Ppn = p: int | 0 <= p < NPAGES

  // Entry flags: single bits in the low 12 bits of a PDE or PTE.
  const PTE_P: int := 0x001                 // present
  const PTE_W: int := 0x002                 // writable
  const PTE_U: int := 0x004                 // user-accessible
  const PTE_PS: int := 0x080                // page size: the PDE maps a 4 MB page itself
  const PTE_G: int := 0x100                 // global: survives a reload of the PDBR

  // User virtual address 0 is linear address PMAP_LINUSER; the user window
  // ends at PMAP_LINHIGH.  Both are 4 MB aligned.
  const PMAP_LINUSER: u32 := 0x4000_0000
  const PMAP_LINHIGH: u32 := 0xF000_0000

  /** e & flag != 0, for a single-bit flag. */
  predicate HasFlag(e: int, flag: int)
    requires flag > 0
  {
    e / flag % 2 == 1
  }

  /** e | flag, for a single-bit flag. */
  function SetFlag(e: int, flag: int): int
    requires flag > 0
  {
    if HasFlag(e, flag) then e else e + flag
  }

  predicate Present(e: int) { HasFlag(e, PTE_P) }

  /** The page an entry refers to: PPN(PTE_ADDR(e)), its upper 20 bits. */
  function Frame(e: u32): Ppn { e / PGSIZE }

  /** The permission bits of an entry: its low 12 bits. */
  function Perms(e: u32): int { e % PGSIZE }

  /** The physical address of the start of page p (mem_pi2phys). */
  function PhysAddr(p: Ppn): u32 { p * PGSIZE }

  /**
   * The entry pmap_insert stores for page p: mem_pi2phys(p) | perm | PTE_P.
   * perm is a permission word, confined to the low 12 bits.
   */
  function MakeEntry(p: Ppn, perm: int): u32
    requires 0 <= perm < PGSIZE
  {
    PhysAddr(p) + SetFlag(perm, PTE_P)
  }

  /** The entry pmap_walk installs for a new page table t: mem_pi2phys(t) | PTE_P | PTE_W | PTE_U. */
  function TablePde(t: Ppn): u32 { PhysAddr(t) + PTE_P + PTE_W + PTE_U }

  /** The linear address of user address uva: uva + PMAP_LINUSER, wrapping modulo 2^32. */
  function LinAddr(uva: u32): u32 { (uva + PMAP_LINUSER) % WORD }

  /** Page directory index (bits 31..22) and page table index (bits 21..12) of a linear address. */
  function PDX(la: u32): (i: int)
    ensures 0 <= i < NPDENTRIES
  {
    la / PTSIZE
  }

  function PTX(la: u32): (j: int)
    ensures 0 <= j < NPTENTRIES
  {
    la / PGSIZE % NPTENTRIES
  }

  const USER_PDX_LO: int := PMAP_LINUSER / PTSIZE   // PDX(PMAP_LINUSER)
  const USER_PDX_HI: int := PMAP_LINHIGH / PTSIZE   // PDX(PMAP_LINHIGH)

  /** Directory slots of the user window [PMAP_LINUSER, PMAP_LINHIGH). */
  predicate UserPdx(i: int) { USER_PDX_LO <= i < USER_PDX_HI }

  /** A user address whose linear address falls in the user window. */
  predicate UserVa(uva: u32) { UserPdx(PDX(LinAddr(uva))) }

  /**
   * An entry built by MakeEntry gives back exactly its page and exactly
   * perm | PTE_P; every other flag, PTE_U and PTE_W among them, is perm's.
   */
  lemma EntryRoundTrip(p: Ppn, perm: int)
    requires 0 <= perm < PGSIZE
    ensures Present(MakeEntry(p, perm))
    ensures Frame(MakeEntry(p, perm)) == p
    ensures Perms(MakeEntry(p, perm)) == SetFlag(perm, PTE_P)
    ensures HasFlag(MakeEntry(p, perm), PTE_U) == HasFlag(perm, PTE_U)
    ensures HasFlag(MakeEntry(p, perm), PTE_W) == HasFlag(perm, PTE_W)
  {
    var low := SetFlag(perm, PTE_P);
    if !HasFlag(perm, PTE_P) {
      assert (perm + 1) / 4 == perm / 4 && (perm + 1) / 2 == perm / 2;
    }
    SplitWord(p, low, PGSIZE);
    LowFlag(p, low, PTE_P, 4096);
    LowFlag(p, low, PTE_W, 2048);
    LowFlag(p, low, PTE_U, 1024);
  }

  /** Dividing q * n + r by n, for 0 <= r < n, gives q with remainder r. */
  lemma SplitWord(q: int, r: int, n: int)
    requires n > 0 && 0 <= r < n
    ensures (q * n + r) / n == q && (q * n + r) % n == r
  {
    var x := q * n + r;
    var k := x / n - q;
    assert n * k == r - x % n;
  }

  /** Adding a multiple of n before dividing by n adds its quotient and leaves the remainder. */
  lemma DivAdd(q: int, r: int, n: int)
    requires n > 0 && r >= 0
    ensures (q * n + r) / n == q + r / n && (q * n + r) % n == r % n
  {
    var d, m := r / n, r % n;
    assert (q + d) * n + m == q * n + r;
    SplitWord(q + d, m, n);
  }

  /** A flag below the page offset is read off the low 12 bits of a word alone. */
  lemma LowFlag(p: int, low: int, flag: int, k: int)
    requires flag > 0 && k * flag == PGSIZE && k % 2 == 0 && 0 <= low < PGSIZE
    ensures HasFlag(p * PGSIZE + low, flag) == HasFlag(low, flag)
  {
    assert (p * k) * flag == p * PGSIZE;
    DivAdd(p * k, low, flag);
    assert (p * (k / 2)) * 2 == p * k;
    DivAdd(p * (k / 2), low / flag, 2);
  }

  /** The permissive directory entry of a new table is present and refers to the table. */
  lemma TablePdeRoundTrip(t: Ppn)
    ensures Present(TablePde(t)) && Frame(TablePde(t)) == t
    ensures HasFlag(TablePde(t), PTE_W) && HasFlag(TablePde(t), PTE_U)
  {
    SplitWord(t, 7, PGSIZE);
    LowFlag(t, 7, PTE_P, 4096);
    LowFlag(t, 7, PTE_W, 2048);
    LowFlag(t, 7, PTE_U, 1024);
  }

  /**
   * The wrapping addition uva + PMAP_LINUSER lands in the user window exactly
   * for the user addresses below PMAP_LINHIGH - PMAP_LINUSER; every larger
   * uva lands at or above PMAP_LINHIGH, or wraps around below PMAP_LINUSER.
   */
  lemma UserWindow(uva: u32)
    ensures UserVa(uva) <==> uva < PMAP_LINHIGH - PMAP_LINUSER
  {
  }

  /** The directory index, the table index and the offset together rebuild a linear address. */
  lemma AddressSplit(la: u32)
    ensures la == PDX(la) * PTSIZE + PTX(la) * PGSIZE + la % PGSIZE
  {
  }

  /** Two linear addresses share a directory slot and a table slot exactly when they lie in the same 4 KB page. */
  lemma SlotIsPage(a: u32, b: u32)
    ensures PDX(a) == PDX(b) && PTX(a) == PTX(b) <==> a / PGSIZE == b / PGSIZE
  {
    AddressSplit(a);
    AddressSplit(b);
  }

  /** The bootstrap directory entry for slot i: (i << PDXSHIFT) | PTE_P | PTE_W | PTE_PS | PTE_G. */
  function BootPde(i: int): u32
    requires 0 <= i < NPDENTRIES
  {
    i * PTSIZE + PTE_P + PTE_W + PTE_PS + PTE_G
  }

  /** Translation through a 4 MB directory entry: its bits 31..22 followed by the address's bits 21..0. */
  function LargePageTranslate(pde: u32, la: u32): u32 {
    pde / PTSIZE * PTSIZE + la % PTSIZE
  }

  /**
   * The bootstrap entry covering a linear address is a present, writable,
   * global 4 MB mapping that translates the address to itself.
   */
  lemma BootIdentity(la: u32)
    ensures var pde := BootPde(PDX(la));
      && Present(pde) && HasFlag(pde, PTE_W) && HasFlag(pde, PTE_PS) && HasFlag(pde, PTE_G)
      && !HasFlag(pde, PTE_U)
      && LargePageTranslate(pde, la) == la
  {
    var i := PDX(la);
    var low := PTE_P + PTE_W + PTE_PS + PTE_G;
    assert BootPde(i) == (i * 1024) * PGSIZE + low;
    LowFlag(i * 1024, low, PTE_P, 4096);
    LowFlag(i * 1024, low, PTE_W, 2048);
    LowFlag(i * 1024, low, PTE_U, 1024);
    LowFlag(i * 1024, low, PTE_PS, 32);
    LowFlag(i * 1024, low, PTE_G, 16);
    SplitWord(i, low, PTSIZE);
  }
}
