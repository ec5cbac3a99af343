/**
 * SV39 address algebra: physical and virtual addresses and page numbers,
 * each a wrapper around one 64-bit machine word (`usize` on riscv64).
 * Construction from a raw word masks to the architectural width; a page
 * number becomes an address by shifting left by the page-offset width, and
 * an address becomes a page number by shifting right, after checking that
 * the address is page aligned.
 *
 * Words are integers in [0, 2^64). On such a word `x & ((1 << w) - 1)` is
 * `x % 2^w`, `x >> 12` is `x / 2^12`, and `x << 12` is `(x * 2^12) % 2^64`
 * (the bits shifted past bit 63 are lost).
 */
module Address {
  import opened Config
  import opened Wrappers

  const USIZE_LIMIT: int := 0x1_0000_0000_0000_0000  // 2^64

  /** A machine word. */
  type Usize = x: int | 0 <= x < USIZE_LIMIT

  const PA_WIDTH_SV39: nat := 56
  const PPN_WIDTH_SV39: nat := PA_WIDTH_SV39 - PAGE_SIZE_BITS
  const VA_WIDTH_SV39: nat := 39
  const VPN_WIDTH_SV39: nat := VA_WIDTH_SV39 - PAGE_SIZE_BITS

  /** 2^width for each of the widths above (Dafny has no power operator). */
  const PA_LIMIT: int := 0x100_0000_0000_0000   // 2^PA_WIDTH_SV39  = 2^56
  const PPN_LIMIT: int := 0x1000_0000_0000      // 2^PPN_WIDTH_SV39 = 2^44
  const VA_LIMIT: int := 0x80_0000_0000         // 2^VA_WIDTH_SV39  = 2^39
  const VPN_LIMIT: int := 0x800_0000            // 2^VPN_WIDTH_SV39 = 2^27

  // The derived orderings of the four wrappers compare their `value`s.
  datatype PhysAddr = PhysAddr(value: Usize)
  datatype VirtAddr = VirtAddr(value: Usize)
  datatype PhysPageNum = PhysPageNum(value: Usize)
  datatype VirtPageNum = VirtPageNum(value: Usize)

  // ---------------------------------------------------------------------
  // From<usize>: mask to the architectural width. The result is the only
  // word below the limit that agrees with `x` modulo the limit.

  /** `PhysAddr::from(usize)`: keeps exactly the low 56 bits. */
  function PhysAddrFromUsize(x: Usize): (a: PhysAddr)
    ensures a.value < PA_LIMIT
    ensures (x - a.value) % PA_LIMIT == 0
  {
    PhysAddr(x % PA_LIMIT)
  }

  /** `PhysPageNum::from(usize)`: keeps exactly the low 44 bits. */
  function PhysPageNumFromUsize(x: Usize): (p: PhysPageNum)
    ensures p.value < PPN_LIMIT
    ensures (x - p.value) % PPN_LIMIT == 0
  {
    PhysPageNum(x % PPN_LIMIT)
  }

  /**
   * `VirtAddr::from(usize)` as written: it masks with the PHYSICAL width
   * of 56 bits, so bits 39 to 55 survive.
   */
  function VirtAddrFromUsize(x: Usize): (a: VirtAddr)
    ensures a.value < PA_LIMIT
    ensures (x - a.value) % PA_LIMIT == 0
    ensures a.value == PhysAddrFromUsize(x).value
  {
    VirtAddr(x % PA_LIMIT)
  }

  /** `VirtAddr::from(usize)` with the 39-bit virtual width it evidently intends. */
  function VirtAddrFromUsizeSv39(x: Usize): (a: VirtAddr)
    ensures a.value < VA_LIMIT
    ensures (x - a.value) % VA_LIMIT == 0
  {
    VirtAddr(x % VA_LIMIT)
  }

  /** `VirtPageNum::from(usize)`: keeps exactly the low 27 bits. */
  function VirtPageNumFromUsize(x: Usize): (v: VirtPageNum)
    ensures v.value < VPN_LIMIT
    ensures (x - v.value) % VPN_LIMIT == 0
  {
    VirtPageNum(x % VPN_LIMIT)
  }

  // ---------------------------------------------------------------------
  // From<wrapper> for usize: the inner word. Masking it again gives the
  // wrapper back exactly when the wrapper is within its width.

  function UsizeFromPhysAddr(a: PhysAddr): (x: Usize)
    ensures PhysAddrFromUsize(x) == a <==> a.value < PA_LIMIT
  {
    a.value
  }

  function UsizeFromPhysPageNum(p: PhysPageNum): (x: Usize)
    ensures PhysPageNumFromUsize(x) == p <==> p.value < PPN_LIMIT
  {
    p.value
  }

  function UsizeFromVirtAddr(a: VirtAddr): (x: Usize)
    ensures VirtAddrFromUsize(x) == a <==> a.value < PA_LIMIT
  {
    a.value
  }

  function UsizeFromVirtPageNum(v: VirtPageNum): (x: Usize)
    ensures VirtPageNumFromUsize(x) == v <==> v.value < VPN_LIMIT
  {
    v.value
  }

  // ---------------------------------------------------------------------
  // Page offsets: the low 12 bits, i.e. what lies above the page base

  /** `PhysAddr::page_offset`. */
  function PhysPageOffset(a: PhysAddr): (off: Usize)
    ensures off < PAGE_SIZE && off <= a.value
    ensures (a.value - off) % PAGE_SIZE == 0
  {
    a.value % PAGE_SIZE
  }

  /** `VirtAddr::page_offset`. */
  function VirtPageOffset(a: VirtAddr): (off: Usize)
    ensures off < PAGE_SIZE && off <= a.value
    ensures (a.value - off) % PAGE_SIZE == 0
  {
    a.value % PAGE_SIZE
  }

  // ---------------------------------------------------------------------
  // Address -> page number: `assert_eq!(page_offset, 0)`, then shift right

  /** `PhysPageNum::from(PhysAddr)`: panics on a non-zero page offset. */
  function PhysPageNumFromPhysAddr(a: PhysAddr): (r: Result<PhysPageNum>)
    ensures r.Panic? <==> PhysPageOffset(a) != 0
    ensures r.Panic? ==> r.fault == AssertionFailed
    ensures r.Ok? ==> r.value.value * PAGE_SIZE == a.value
    ensures r.Ok? && a.value < PA_LIMIT ==> r.value.value < PPN_LIMIT
  {
    if PhysPageOffset(a) != 0 then Panic(AssertionFailed)
    else Ok(PhysPageNum(a.value / PAGE_SIZE))
  }

  /** `VirtPageNum::from(VirtAddr)`: panics on a non-zero page offset. */
  function VirtPageNumFromVirtAddr(a: VirtAddr): (r: Result<VirtPageNum>)
    ensures r.Panic? <==> VirtPageOffset(a) != 0
    ensures r.Panic? ==> r.fault == AssertionFailed
    ensures r.Ok? ==> r.value.value * PAGE_SIZE == a.value
    ensures r.Ok? && a.value < VA_LIMIT ==> r.value.value < VPN_LIMIT
  {
    if VirtPageOffset(a) != 0 then Panic(AssertionFailed)
    else Ok(VirtPageNum(a.value / PAGE_SIZE))
  }

  // ---------------------------------------------------------------------
  // Page number -> address: shift left; nothing masks the result

  /** `PhysAddr::from(PhysPageNum)`. */
  function PhysAddrFromPhysPageNum(p: PhysPageNum): (a: PhysAddr)
    ensures PhysPageOffset(a) == 0
    ensures p.value < PPN_LIMIT ==> a.value == p.value * PAGE_SIZE && a.value < PA_LIMIT
  {
    PhysAddr((p.value * PAGE_SIZE) % USIZE_LIMIT)
  }

  /** `VirtAddr::from(VirtPageNum)`. */
  function VirtAddrFromVirtPageNum(v: VirtPageNum): (a: VirtAddr)
    ensures VirtPageOffset(a) == 0
    ensures v.value < VPN_LIMIT ==> a.value == v.value * PAGE_SIZE && a.value < VA_LIMIT
  {
    VirtAddr((v.value * PAGE_SIZE) % USIZE_LIMIT)
  }

  // ---------------------------------------------------------------------
  // Properties relating the conversions

  /** Masking is idempotent: a constructed wrapper survives another trip through `usize`. */
  lemma MaskingIdempotent(x: Usize)
    ensures PhysAddrFromUsize(UsizeFromPhysAddr(PhysAddrFromUsize(x))) == PhysAddrFromUsize(x)
    ensures PhysPageNumFromUsize(UsizeFromPhysPageNum(PhysPageNumFromUsize(x))) == PhysPageNumFromUsize(x)
    ensures VirtAddrFromUsize(UsizeFromVirtAddr(VirtAddrFromUsize(x))) == VirtAddrFromUsize(x)
    ensures VirtPageNumFromUsize(UsizeFromVirtPageNum(VirtPageNumFromUsize(x))) == VirtPageNumFromUsize(x)
  {
  }

  /** Aligned physical address -> page number -> address gives the address back. */
  lemma PhysAddrRoundTrip(a: PhysAddr)
    requires PhysPageOffset(a) == 0
    ensures PhysPageNumFromPhysAddr(a).Ok?
    ensures PhysAddrFromPhysPageNum(PhysPageNumFromPhysAddr(a).value) == a
  {
  }

  /**
   * Physical page number -> address -> page number gives the page number back
   * for every page number whose shifted bits all stay inside the 64-bit word
   * (below 2^52), including those wider than the 44-bit page number width.
   */
  lemma PhysPageNumRoundTrip(p: PhysPageNum)
    requires p.value < PPN_LIMIT * 256
    ensures PhysPageNumFromPhysAddr(PhysAddrFromPhysPageNum(p)) == Ok(p)
  {
  }

  /** Aligned virtual address -> page number -> address gives the address back. */
  lemma VirtAddrRoundTrip(a: VirtAddr)
    requires VirtPageOffset(a) == 0
    ensures VirtPageNumFromVirtAddr(a).Ok?
    ensures VirtAddrFromVirtPageNum(VirtPageNumFromVirtAddr(a).value) == a
  {
  }

  /**
   * Virtual page number -> address -> page number gives the page number back
   * for every page number below 2^52, so also for the page numbers up to 2^44
   * that addresses built by `VirtAddrFromUsize` yield.
   */
  lemma VirtPageNumRoundTrip(v: VirtPageNum)
    requires v.value < PPN_LIMIT * 256
    ensures VirtPageNumFromVirtAddr(VirtAddrFromVirtPageNum(v)) == Ok(v)
  {
  }

  /** Page -> address preserves and reflects the order of in-width page numbers. */
  lemma PhysAddrFromPhysPageNumMonotone(p: PhysPageNum, q: PhysPageNum)
    requires p.value < PPN_LIMIT && q.value < PPN_LIMIT
    ensures p.value < q.value <==> PhysAddrFromPhysPageNum(p).value < PhysAddrFromPhysPageNum(q).value
  {
  }

  /** Page -> address preserves and reflects the order of in-width virtual page numbers. */
  lemma VirtAddrFromVirtPageNumMonotone(v: VirtPageNum, w: VirtPageNum)
    requires v.value < VPN_LIMIT && w.value < VPN_LIMIT
    ensures v.value < w.value <==> VirtAddrFromVirtPageNum(v).value < VirtAddrFromVirtPageNum(w).value
  {
  }

  /**
   * Page -> address does not mask: the page number 2^44, one past the
   * physical page number width, gives the address 2^56, one past the
   * physical address width; the page number 2^52 loses all its bits.
   */
  lemma PhysAddrFromWidePhysPageNum()
    ensures PhysAddrFromPhysPageNum(PhysPageNum(PPN_LIMIT)).value == PA_LIMIT
    ensures PhysAddrFromPhysPageNum(PhysPageNum(PPN_LIMIT * 256)).value == 0
  {
  }

  /**
   * As written, `VirtAddr::from` lets bit 39 through: the aligned word 2^39
   * becomes a virtual address whose page number is 2^27, one past the
   * 27-bit virtual page number width, which `VirtPageNum::from(usize)`
   * would have masked to 0.
   */
  lemma VirtAddrFromUsizeExceedsSv39()
    ensures VirtAddrFromUsize(VA_LIMIT).value == VA_LIMIT
    ensures VirtPageNumFromVirtAddr(VirtAddrFromUsize(VA_LIMIT)) == Ok(VirtPageNum(VPN_LIMIT))
    ensures VirtPageNumFromUsize(VPN_LIMIT) == VirtPageNum(0)
  {
  }

  /**
   * With the 39-bit mask, every aligned virtual address has a page number
   * within the 27-bit width, which `VirtPageNum::from(usize)` leaves as is.
   */
  lemma VirtAddrFromUsizeSv39InWidth(x: Usize)
    requires VirtPageOffset(VirtAddrFromUsizeSv39(x)) == 0
    ensures VirtPageNumFromVirtAddr(VirtAddrFromUsizeSv39(x)).Ok?
    ensures VirtPageNumFromVirtAddr(VirtAddrFromUsizeSv39(x)).value.value < VPN_LIMIT
    ensures VirtPageNumFromUsize(VirtPageNumFromVirtAddr(VirtAddrFromUsizeSv39(x)).value.value)
         == VirtPageNumFromVirtAddr(VirtAddrFromUsizeSv39(x)).value
  {
  }
}
