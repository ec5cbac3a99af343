/**
 * The SV39 page-table-entry layout: the eight flag bits of the low byte
 * and the one-word entry record.
 */
module PageTable {
  import opened Address

  /** A `PTEFlags` set: the `u8` its bitflags declaration sits on. */
  datatype PTEFlags = PTEFlags(bits: bv8)

  const V: PTEFlags := PTEFlags(1 << 0)  // valid
  const R: PTEFlags := PTEFlags(1 << 1)  // readable
  const W: PTEFlags := PTEFlags(1 << 2)  // writable
  const X: PTEFlags := PTEFlags(1 << 3)  // executable
  const U: PTEFlags := PTEFlags(1 << 4)  // user
  const G: PTEFlags := PTEFlags(1 << 5)  // global
  const A: PTEFlags := PTEFlags(1 << 6)  // accessed
  const D: PTEFlags := PTEFlags(1 << 7)  // dirty

  /** The flags in declaration order. */
  const FLAGS: seq<PTEFlags> := [V, R, W, X, U, G, A, D]

  /** A page table entry is one machine word and nothing else. */
  datatype PageTableEntry = PageTableEntry(bits: Usize)

  /** The set with exactly the flags of `fs`. */
  function Union(fs: seq<PTEFlags>): PTEFlags
  {
    if fs == [] then PTEFlags(0) else PTEFlags(Union(fs[..|fs| - 1]).bits | fs[|fs| - 1].bits)
  }

  /** `PTEFlags::bits` widened to a word: every flag set fits in the low 8 bits. */
  function FlagsWord(f: PTEFlags): (x: Usize)
    ensures x < 256
    ensures f.bits == 0 <==> x == 0
  {
    f.bits as int
  }

  /** A single set bit. */
  predicate IsSingleBit(b: bv8)
  {
    b != 0 && b & (b - 1) == 0
  }

  /** Flag number `i` of the declaration order is bit `i`: V is bit 0, ..., D is bit 7. */
  lemma FlagsAreBitsInOrder()
    ensures |FLAGS| == 8
    ensures forall i :: 0 <= i < 8 ==> FLAGS[i].bits == 1 << i && IsSingleBit(FLAGS[i].bits)
  {
  }

  /** Setting bit `k` on top of the low `k` bits gives the low `k + 1` bits. */
  lemma LowBitsGrow(k: nat)
    requires k < 8
    ensures (((1 as bv8) << k) - 1) | ((1 as bv8) << k) == ((1 as bv8) << (k + 1)) - 1
  {
  }

  /** The union of the first `k` flags is the low `k` bits of the byte. */
  lemma {:induction false} UnionOfPrefix(k: nat)
    requires k <= |FLAGS|
    ensures Union(FLAGS[..k]).bits == ((1 as bv8) << k) - 1
  {
    if k > 0 {
      UnionOfPrefix(k - 1);
      assert FLAGS[..k][..k - 1] == FLAGS[..k - 1];
      LowBitsGrow(k - 1);
    }
  }

  /** The eight flags are pairwise disjoint and together cover the whole byte. */
  lemma FlagsPartitionByte()
    ensures forall i, j :: 0 <= i < j < |FLAGS| ==> FLAGS[i].bits & FLAGS[j].bits == 0
    ensures Union(FLAGS) == PTEFlags(0xFF)
  {
    UnionOfPrefix(8);
    assert FLAGS[..8] == FLAGS;
  }
}
