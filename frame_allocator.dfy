/**
 * The physical frame allocator: a bump pointer `current` running up to the
 * exclusive bound `end`, plus a stack `recycled` of freed page numbers that
 * are handed out again, most recently freed first.
 *
 * The pure functions AllocStep and DeallocStep describe one call on an
 * abstract AllocatorState; the class StackFrameAllocator does the same
 * in place and is proved against them.
 */
module FrameAllocator {
  import opened Wrappers
  import opened Config
  import opened Address

  datatype AllocatorState = AllocatorState(current: PhysPageNum, end: PhysPageNum, recycled: seq<Usize>)

  /** What `alloc` returns, and the state it leaves behind. */
  datatype AllocResult = AllocResult(ppn: Option<PhysPageNum>, next: AllocatorState)

  /** The allocator's invariant: `recycled` has no duplicates and lies below `current`. */
  predicate Invariant(s: AllocatorState)
  {
    && (forall i, j :: 0 <= i < j < |s.recycled| ==> s.recycled[i] != s.recycled[j])
    && (forall i :: 0 <= i < |s.recycled| ==> s.recycled[i] < s.current.value)
  }

  /** The bump pointer has not passed the bound; holds after `init(l, r)` with `l <= r`. */
  predicate Bounded(s: AllocatorState)
  {
    s.current.value <= s.end.value
  }

  /** The state `StackFrameAllocator::new` builds: both pointers `0.into()`, nothing recycled. */
  function Fresh(): (s: AllocatorState)
    ensures Invariant(s) && Bounded(s)
    ensures AllocStep(s).ppn.None?
  {
    AllocatorState(PhysPageNumFromUsize(0), PhysPageNumFromUsize(0), [])
  }

  /** `current + 1` on a page number (the `Add` impl): the successor word. */
  function Succ(p: PhysPageNum): (q: PhysPageNum)
    ensures p.value + 1 < USIZE_LIMIT ==> q.value == p.value + 1
  {
    PhysPageNum((p.value + 1) % USIZE_LIMIT)
  }

  /**
   * `alloc`: pop the most recently freed page (converted back through
   * `PhysPageNum::from(usize)`); else, unless `current == end`, hand out
   * `current` and advance it.
   */
  function AllocStep(s: AllocatorState): (r: AllocResult)
    ensures r.ppn.None? <==> s.recycled == [] && s.current == s.end
    ensures r.ppn.None? ==> r.next == s
    ensures r.next.end == s.end
    ensures Invariant(s) ==> Invariant(r.next)
    ensures Bounded(s) ==> Bounded(r.next)
    ensures Invariant(s) && s.current.value <= PPN_LIMIT && r.ppn.Some? ==>
              r.ppn.value.value < r.next.current.value && r.ppn.value.value !in r.next.recycled
  {
    if s.recycled != [] then
      var ppn := s.recycled[|s.recycled| - 1];
      AllocResult(Some(PhysPageNumFromUsize(ppn)), s.(recycled := s.recycled[..|s.recycled| - 1]))
    else if s.current == s.end then
      AllocResult(None, s)
    else
      AllocResult(Some(s.current), s.(current := Succ(s.current)))
  }

  /**
   * `dealloc`: panics when `ppn` was never handed out by the bump pointer
   * or is already recycled; otherwise pushes it and changes nothing else.
   */
  function DeallocStep(s: AllocatorState, ppn: PhysPageNum): (r: Result<AllocatorState>)
    ensures r.Panic? <==> ppn.value >= s.current.value || ppn.value in s.recycled
    ensures r.Panic? ==> r.fault == FrameNotAllocated
    ensures r.Ok? ==> r.value.recycled == s.recycled + [ppn.value]
    ensures r.Ok? ==> r.value.current == s.current && r.value.end == s.end
    ensures Invariant(s) && r.Ok? ==> Invariant(r.value)
  {
    if ppn.value >= s.current.value || ppn.value in s.recycled then Panic(FrameNotAllocated)
    else Ok(s.(recycled := s.recycled + [ppn.value]))
  }

  /** The state after `dealloc`, counting a panic as changing nothing. */
  function AfterDealloc(s: AllocatorState, ppn: PhysPageNum): AllocatorState
  {
    match DeallocStep(s, ppn)
    case Ok(t) => t
    case Panic(_) => s
  }

  // ---------------------------------------------------------------------
  // Several calls in a row

  /** The pages `k` consecutive `alloc` calls return, and the state after them. */
  datatype Run = Run(ppns: seq<Option<PhysPageNum>>, last: AllocatorState)

  function AllocMany(s: AllocatorState, k: nat): (r: Run)
    ensures |r.ppns| == k
    decreases k
  {
    if k == 0 then Run([], s)
    else
      var first := AllocStep(s);
      var rest := AllocMany(first.next, k - 1);
      Run([first.ppn] + rest.ppns, rest.last)
  }

  /**
   * With nothing recycled and room for `k` more pages, `k` allocations hand
   * out `current, current + 1, ..., current + k - 1` in that order.
   */
  lemma {:induction false} AllocManyBumps(s: AllocatorState, k: nat)
    requires s.recycled == [] && s.current.value + k <= s.end.value
    ensures forall i :: 0 <= i < k ==> AllocMany(s, k).ppns[i] == Some(PhysPageNum(s.current.value + i))
    ensures AllocMany(s, k).last == s.(current := PhysPageNum(s.current.value + k))
    decreases k
  {
    if k > 0 {
      var next := AllocStep(s).next;
      assert next == s.(current := PhysPageNum(s.current.value + 1));
      AllocManyBumps(next, k - 1);
      forall i | 0 <= i < k
        ensures AllocMany(s, k).ppns[i] == Some(PhysPageNum(s.current.value + i))
      {
        if i > 0 {
          assert AllocMany(s, k).ppns[i] == AllocMany(next, k - 1).ppns[i - 1];
        }
      }
    }
  }

  /**
   * After `init(l, r)` on a fresh allocator, the first `r - l` allocations
   * return `l, l + 1, ..., r - 1` and the next one returns None.
   */
  lemma AllocAfterInit(l: PhysPageNum, r: PhysPageNum)
    requires l.value <= r.value
    ensures var s := Fresh().(current := l, end := r);
            var run := AllocMany(s, r.value - l.value);
            && (forall i :: 0 <= i < r.value - l.value ==> run.ppns[i] == Some(PhysPageNum(l.value + i)))
            && AllocStep(run.last).ppn == None
  {
    var s := Fresh().(current := l, end := r);
    AllocManyBumps(s, r.value - l.value);
  }

  /** LIFO reuse: `alloc` right after a successful `dealloc(p)` returns `p` and restores the state. */
  lemma DeallocThenAlloc(s: AllocatorState, p: PhysPageNum)
    requires DeallocStep(s, p).Ok?
    ensures AllocStep(DeallocStep(s, p).value).next == s
    ensures AllocStep(DeallocStep(s, p).value).ppn == Some(PhysPageNumFromUsize(p.value))
    ensures p.value < PPN_LIMIT ==> AllocStep(DeallocStep(s, p).value).ppn == Some(p)
  {
    var t := DeallocStep(s, p).value;
    assert t.recycled[..|t.recycled| - 1] == s.recycled;
  }

  /** `dealloc` does not reject a page below the range `init` was given, though it was never handed out. */
  lemma DeallocBelowInitRange(l: PhysPageNum, r: PhysPageNum)
    requires 0 < l.value
    ensures DeallocStep(Fresh().(current := l, end := r), PhysPageNum(0)).Ok?
  {
  }

  // ---------------------------------------------------------------------
  // Ownership: no page is handed out twice, and `dealloc` catches double frees

  /**
   * `owned` is the set of pages handed out and not yet returned: each is
   * below `current` and not recycled, and every page of `[low, current)`
   * is either owned or recycled.
   */
  predicate Accounted(s: AllocatorState, low: Usize, owned: set<Usize>)
  {
    && Invariant(s) && Bounded(s) && s.end.value <= PPN_LIMIT
    && (forall p :: p in owned ==> p < s.current.value && p !in s.recycled)
    && (forall p :: low <= p < s.current.value && p !in s.recycled ==> p in owned)
  }

  /** A fresh allocator after `init(l, r)` with `l <= r` owns nothing. */
  lemma InitAccounted(l: PhysPageNum, r: PhysPageNum)
    requires l.value <= r.value <= PPN_LIMIT
    ensures Accounted(Fresh().(current := l, end := r), l.value, {})
  {
  }

  /** `alloc` hands out a page nobody owns, and the accounting carries over with it owned. */
  lemma AllocAccounted(s: AllocatorState, low: Usize, owned: set<Usize>)
    requires Accounted(s, low, owned)
    requires AllocStep(s).ppn.Some?
    ensures AllocStep(s).ppn.value.value !in owned
    ensures Accounted(AllocStep(s).next, low, owned + {AllocStep(s).ppn.value.value})
  {
    var r := AllocStep(s);
    var p := r.ppn.value.value;
    if s.recycled != [] {
      assert p == s.recycled[|s.recycled| - 1];
      assert s.recycled == r.next.recycled + [p];
    }
  }

  /** Returning an owned page never panics, and the accounting carries over without it. */
  lemma DeallocAccounted(s: AllocatorState, low: Usize, owned: set<Usize>, p: PhysPageNum)
    requires Accounted(s, low, owned) && p.value in owned
    ensures DeallocStep(s, p).Ok?
    ensures Accounted(DeallocStep(s, p).value, low, owned - {p.value})
  {
  }

  /** From the lower bound up, `dealloc` panics exactly on pages nobody owns: double and invalid frees. */
  lemma DeallocPanicsUnlessOwned(s: AllocatorState, low: Usize, owned: set<Usize>, p: PhysPageNum)
    requires Accounted(s, low, owned) && low <= p.value
    ensures DeallocStep(s, p).Panic? <==> p.value !in owned
  {
  }

  // ---------------------------------------------------------------------
  // The allocator object

  /** `recycled.iter().find(|x| *x == ppn).is_some()`: a linear scan. */
  method Find(recycled: seq<Usize>, ppn: Usize) returns (found: bool)
    ensures found <==> ppn in recycled
  {
    var i := 0;
    while i < |recycled|
      invariant 0 <= i <= |recycled|
      invariant ppn !in recycled[..i]
    {
      if recycled[i] == ppn {
        return true;
      }
      i := i + 1;
    }
    assert recycled[..i] == recycled;
    return false;
  }

  class StackFrameAllocator {
    var current: PhysPageNum
    var end: PhysPageNum
    var recycled: seq<Usize>

    function State(): AllocatorState
      reads this
    {
      AllocatorState(current, end, recycled)
    }

    /** `StackFrameAllocator::new`. */
    constructor ()
      ensures State() == Fresh()
    {
      current := PhysPageNumFromUsize(0);
      end := PhysPageNumFromUsize(0);
      recycled := [];
    }

    /** `init(l, r)`: sets the bump range and leaves `recycled` alone. */
    method Init(l: PhysPageNum, r: PhysPageNum)
      modifies this
      ensures State() == old(State()).(current := l, end := r)
    {
      current := l;
      end := r;
    }

    method Alloc() returns (ppn: Option<PhysPageNum>)
      modifies this
      ensures AllocResult(ppn, State()) == AllocStep(old(State()))
    {
      if recycled != [] {
        var last := recycled[|recycled| - 1];
        recycled := recycled[..|recycled| - 1];
        return Some(PhysPageNumFromUsize(last));
      } else if current == end {
        return None;
      } else {
        // `current - 1` after the increment is the page `current` was before it
        var handed := current;
        current := Succ(current);
        return Some(handed);
      }
    }

    /** `dealloc`; a panic leaves the state as it was. */
    method Dealloc(ppn: PhysPageNum) returns (r: Result<()>)
      modifies this
      ensures r.Panic? <==> DeallocStep(old(State()), ppn).Panic?
      ensures r.Panic? ==> r.fault == FrameNotAllocated
      ensures State() == AfterDealloc(old(State()), ppn)
    {
      var invalid := ppn.value >= current.value;
      if !invalid {
        invalid := Find(recycled, ppn.value);
      }
      if invalid {
        return Panic(FrameNotAllocated);
      }
      recycled := recycled + [ppn.value];
      return Ok(());
    }
  }

  // ---------------------------------------------------------------------
  // Frame trackers: the owning handle of one allocated page

  /** The first byte of page `ppn` in a memory whose byte 0 is physical address 0. */
  function PageBase(ppn: PhysPageNum): nat
  {
    ppn.value * PAGE_SIZE
  }

  class FrameTracker {
    const ppn: PhysPageNum
    /** Set once the tracker has been dropped; a tracker is dropped at most once. */
    ghost var released: bool

    /** `FrameTracker::new`: zeroes the page's 4096 bytes, and only those. */
    constructor (ppn: PhysPageNum, memory: array<bv8>)
      requires PageBase(ppn) + PAGE_SIZE <= memory.Length
      modifies memory
      ensures this.ppn == ppn && !released
      ensures forall i :: PageBase(ppn) <= i < PageBase(ppn) + PAGE_SIZE ==> memory[i] == 0
      ensures forall i :: 0 <= i < memory.Length && !(PageBase(ppn) <= i < PageBase(ppn) + PAGE_SIZE) ==>
                memory[i] == old(memory[i])
    {
      this.ppn := ppn;
      released := false;
      var base := PageBase(ppn);
      var i := 0;
      while i < PAGE_SIZE
        invariant 0 <= i <= PAGE_SIZE
        invariant forall j :: base <= j < base + i ==> memory[j] == 0
        invariant forall j :: 0 <= j < memory.Length && !(base <= j < base + i) ==> memory[j] == old(memory[j])
      {
        memory[base + i] := 0;
        i := i + 1;
      }
    }

    /** `drop`: hands the page back with exactly one `dealloc`. */
    method Release(allocator: StackFrameAllocator) returns (r: Result<()>)
      requires !released
      modifies this, allocator
      ensures released
      ensures r.Panic? <==> DeallocStep(old(allocator.State()), ppn).Panic?
      ensures allocator.State() == AfterDealloc(old(allocator.State()), ppn)
    {
      released := true;
      r := allocator.Dealloc(ppn);
    }
  }

  /**
   * `frame_alloc`: `alloc`, and wrap the page in a fresh tracker that has
   * zeroed it. The managed range must lie inside the modelled memory.
   */
  method FrameAlloc(allocator: StackFrameAllocator, memory: array<bv8>) returns (t: Option<FrameTracker>)
    requires Invariant(allocator.State()) && Bounded(allocator.State())
    requires allocator.end.value * PAGE_SIZE <= memory.Length
    modifies allocator, memory
    ensures allocator.State() == AllocStep(old(allocator.State())).next
    ensures t.None? <==> AllocStep(old(allocator.State())).ppn.None?
    ensures t.None? ==> memory[..] == old(memory[..])
    ensures t.Some? ==> && fresh(t.value) && !t.value.released
                        && AllocStep(old(allocator.State())).ppn == Some(t.value.ppn)
    ensures t.Some? ==> forall i :: 0 <= i < memory.Length ==>
              memory[i] == if PageBase(t.value.ppn) <= i < PageBase(t.value.ppn) + PAGE_SIZE then 0 else old(memory[i])
  {
    var ppn := allocator.Alloc();
    match ppn
    case None =>
      t := None;
    case Some(p) =>
      var tracker := new FrameTracker(p, memory);
      t := Some(tracker);
  }
}
