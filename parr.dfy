/**
  The pointer array `Parr<T>`: a one-word, non-owning handle that holds the
  base address of an existing memory region and indexes that region as an
  array of `T`, without bounds checks.

  Memory is an immutable map from the byte address of a slot to the element
  of type `T` stored there; `size` is `size_of::<T>()`. The target is 64-bit,
  so `usize`, `u64` and a raw pointer all hold the same values.
 */
module PointerArray {

  /** One past the largest 64-bit address. */
  const U64_LIMIT: int := 0x1_0000_0000_0000_0000

  /** `isize::MAX`: no allocation and no pointer offset may exceed this many bytes. */
  const ISIZE_MAX: int := 0x7FFF_FFFF_FFFF_FFFF

  type u64 = x: int | 0 <= x < 0x1_0000_0000_0000_0000

  type usize = x: int | 0 <= x < 0x1_0000_0000_0000_0000

  /** Byte address of a slot -> the element of type `T` that lives there. */
  type Memory<T> = map<u64, T>

  /** The handle: nothing but the raw pointer `*mut T` to the first element. */
  datatype Parr<T> = Parr(ptr: u64) {

    /** `base`: the stored pointer read back as an integer (`self.0 as u64`). */
    function Base(): (b: u64)
      ensures this == Parr(b)
    {
      ptr
    }
  }

  /** `Parr::new`: the given address becomes the pointer, with no validation. */
  function New<T>(base: u64): (p: Parr<T>)
    ensures p.Base() == base
  {
    Parr(base)
  }

  /**
    A borrowed slice `&[T]`: the address of its first element and the
    elements themselves. Where the elements are is stated by `Placed`.
   */
  datatype Slice<T> = Slice(addr: u64, elems: seq<T>)

  /** `as_ptr`: the address of the slice's first element. */
  function AsPtr<T>(s: Slice<T>): (a: u64)
    ensures s == Slice(a, s.elems)
  {
    s.addr
  }

  /**
    `From<&[T]>`: the fat slice pointer is cast to a thin pointer, which keeps
    the first element's address and drops the length.
   */
  function From<T>(s: Slice<T>): (p: Parr<T>)
    ensures p.Base() == AsPtr(s)
  {
    Parr(s.addr)
  }

  /** The byte address `base + i * size`: an offset of `i` elements, not `i` bytes. */
  function Slot(base: u64, i: nat, size: nat): (a: int)
  {
    base + i * size
  }

  /**
    What `self.0.add(index)` followed by a dereference demands of the caller,
    left unchecked (undefined behaviour) by the source: the byte offset fits
    in `isize`, the address computed does not leave the address space, and it
    is a slot of live memory holding a `T`.
   */
  predicate ValidSlot<T>(mem: Memory<T>, size: nat, p: Parr<T>, i: usize)
  {
    && i * size <= ISIZE_MAX
    && Slot(p.Base(), i, size) < U64_LIMIT
    && Slot(p.Base(), i, size) in mem
  }

  /**
    `Index<usize>`: the element `index` elements past the base address, that
    is, at the byte address `base + index * size_of::<T>()`.
   */
  function Index<T>(mem: Memory<T>, size: nat, p: Parr<T>, i: usize): (x: T)
    requires ValidSlot(mem, size, p, i)
    ensures p.Base() + i * size in mem && x == mem[p.Base() + i * size]
  {
    mem[Slot(p.Base(), i, size)]
  }

  /**
    The first `n` elements that the handle presents as an array, read through
    `Index` one by one; every one of them must be a valid read.
   */
  function View<T>(mem: Memory<T>, size: nat, p: Parr<T>, n: nat): (r: seq<T>)
    requires n <= U64_LIMIT
    requires forall k: usize :: k < n ==> ValidSlot(mem, size, p, k)
    ensures |r| == n
    ensures forall k: usize :: k < n ==> r[k] == Index(mem, size, p, k)
  {
    if n == 0 then [] else View(mem, size, p, n - 1) + [Index(mem, size, p, n - 1)]
  }

  /**
    The slice `s` lies in `mem`: element `k` sits at `s.addr + k * size`.
    As for every Rust slice, its length is a `usize` and it spans at most
    `isize::MAX` bytes.
   */
  ghost predicate Placed<T>(mem: Memory<T>, size: nat, s: Slice<T>)
  {
    && |s.elems| < U64_LIMIT
    && |s.elems| * size <= ISIZE_MAX
    && forall k :: 0 <= k < |s.elems| ==>
         && Slot(s.addr, k, size) < U64_LIMIT
         && Slot(s.addr, k, size) in mem
         && mem[Slot(s.addr, k, size)] == s.elems[k]
  }

  // ---------------------------------------------------------------------
  // Constructors and the accessor

  /**
    `new` is total and `base` gives back exactly the address it was given
    (a corollary of `New`'s postcondition, stated as the round trip).
   */
  lemma BaseOfNew<T>(b: u64)
    ensures New<T>(b).Base() == b
  {
  }

  /** The handle is nothing but its address: rebuilding it from `base` gives it back. */
  lemma NewOfBase<T>(p: Parr<T>)
    ensures New<T>(p.Base()) == p
  {
  }

  /** `from` keeps no length: slices at the same address give the same handle. */
  lemma FromKeepsOnlyAddress<T>(s: Slice<T>, t: Slice<T>)
    ensures From(s) == From(t) <==> AsPtr(s) == AsPtr(t)
  {
  }

  /** `from(s)` is the same view as `new(s.as_ptr() as u64)`. */
  lemma FromIsNewOfAsPtr<T>(s: Slice<T>)
    ensures From(s) == New<T>(AsPtr(s))
  {
  }

  // ---------------------------------------------------------------------
  // Indexing

  /** Multiplying by an element size keeps the order of indexes. */
  lemma {:induction false} MulMonotonic(i: nat, j: nat, size: nat)
    requires i <= j
    ensures i * size <= j * size
  {
    if i < j {
      MulMonotonic(i, j - 1, size);
      assert j * size == (j - 1) * size + size;
    }
  }

  /**
    Index `i` reads the slot `i * size` bytes past the base: it is index 0 of
    the view that `new` builds at that byte address (the case `i + 0` of
    `IndexShift`, stated on its own as the element-offset rule).
   */
  lemma IndexCountsElements<T>(mem: Memory<T>, size: nat, p: Parr<T>, i: usize)
    requires ValidSlot(mem, size, p, i)
    ensures ValidSlot(mem, size, New<T>(p.Base() + i * size), 0)
    ensures Index(mem, size, p, i) == Index(mem, size, New<T>(p.Base() + i * size), 0)
  {
  }

  /**
    Offsets add up: index `i + j` of `p` is index `j` of the view based `i`
    elements past `p`'s base.
   */
  lemma IndexShift<T>(mem: Memory<T>, size: nat, p: Parr<T>, i: usize, j: usize)
    requires i + j < U64_LIMIT
    requires ValidSlot(mem, size, p, i + j)
    ensures Slot(p.Base(), i, size) < U64_LIMIT
    ensures ValidSlot(mem, size, New<T>(Slot(p.Base(), i, size)), j)
    ensures Index(mem, size, p, i + j) == Index(mem, size, New<T>(Slot(p.Base(), i, size)), j)
  {
    MulMonotonic(i, i + j, size);
    assert (i + j) * size == i * size + j * size;
  }

  /**
    For elements of non-zero size, distinct indexes read disjoint slots: the
    slot of a larger index starts at least one element after a smaller one.
   */
  lemma SlotsDisjoint(base: u64, i: nat, j: nat, size: nat)
    requires i < j
    ensures Slot(base, i, size) + size <= Slot(base, j, size)
  {
    MulMonotonic(i + 1, j, size);
    assert (i + 1) * size == i * size + size;
  }

  /** Indexing only reads: it depends on nothing but the one slot it reads. */
  lemma IndexReadsOnlyItsSlot<T>(mem: Memory<T>, mem': Memory<T>, size: nat, p: Parr<T>, i: usize)
    requires ValidSlot(mem, size, p, i)
    requires Slot(p.Base(), i, size) in mem'
    requires mem'[Slot(p.Base(), i, size)] == mem[Slot(p.Base(), i, size)]
    ensures ValidSlot(mem', size, p, i)
    ensures Index(mem', size, p, i) == Index(mem, size, p, i)
  {
  }

  /**
    A view built from a placed slice reads back the slice: every index below
    the slice's length is a valid slot and holds that element.
   */
  lemma IndexFromSlice<T>(mem: Memory<T>, size: nat, s: Slice<T>, i: usize)
    requires Placed(mem, size, s)
    requires i < |s.elems|
    ensures ValidSlot(mem, size, From(s), i)
    ensures Index(mem, size, From(s), i) == s.elems[i]
  {
  }

  /** The array a handle built from a placed slice presents is exactly the slice. */
  lemma ViewFromSlice<T>(mem: Memory<T>, size: nat, s: Slice<T>)
    requires Placed(mem, size, s)
    ensures forall k: usize :: k < |s.elems| ==> ValidSlot(mem, size, From(s), k)
    ensures View(mem, size, From(s), |s.elems|) == s.elems
  {
    forall k: usize | k < |s.elems|
      ensures ValidSlot(mem, size, From(s), k) && Index(mem, size, From(s), k) == s.elems[k]
    {
      IndexFromSlice(mem, size, s, k);
    }
  }

  // ---------------------------------------------------------------------
  // Derived equality and ordering: both compare the raw pointer

  datatype Ordering = Less | Equal | Greater {
    function Reverse(): (o: Ordering)
    {
      match this
      case Less => Greater
      case Equal => Equal
      case Greater => Less
    }
  }

  /** Derived `PartialEq`: the single pointer field is compared. */
  function Eq<T>(p: Parr<T>, q: Parr<T>): (b: bool)
    ensures b <==> p == q
  {
    p.ptr == q.ptr
  }

  /** Derived `Ord::cmp`: raw pointers compare by address. */
  function Cmp<T>(p: Parr<T>, q: Parr<T>): (o: Ordering)
    ensures o == Equal <==> p == q
    ensures o == Less <==> p.Base() < q.Base()
    ensures o == Greater <==> q.Base() < p.Base()
  {
    if p.ptr < q.ptr then Less
    else if p.ptr == q.ptr then Equal
    else Greater
  }

  /** Derived `<=` (through `partial_cmp`, which is `Some(cmp)`). */
  function Le<T>(p: Parr<T>, q: Parr<T>): (b: bool)
    ensures b <==> p.Base() <= q.Base()
  {
    Cmp(p, q) != Greater
  }

  /** Derived `<`. */
  function Lt<T>(p: Parr<T>, q: Parr<T>): (b: bool)
    ensures b <==> p.Base() < q.Base()
  {
    Cmp(p, q) == Less
  }

  /**
    Two handles are equal exactly when their base addresses are (the first
    clause repeats `Eq`'s postcondition next to the second).
   */
  lemma EqIffSameBase<T>(p: Parr<T>, q: Parr<T>)
    ensures Eq(p, q) <==> p == q
    ensures Eq(p, q) <==> p.Base() == q.Base()
  {
  }

  /**
    `cmp` agrees with `==` and with the numeric order of the bases: the
    postconditions of `Lt`, `Le`, `Cmp` and `Eq` gathered in one place.
   */
  lemma CmpIsAddressOrder<T>(p: Parr<T>, q: Parr<T>)
    ensures Lt(p, q) <==> p.Base() < q.Base()
    ensures Le(p, q) <==> p.Base() <= q.Base()
    ensures Cmp(p, q) == Equal <==> Eq(p, q)
  {
  }

  /** Swapping the operands reverses the comparison. */
  lemma CmpAntisymmetric<T>(p: Parr<T>, q: Parr<T>)
    ensures Cmp(q, p) == Cmp(p, q).Reverse()
  {
  }

  /** Trichotomy: exactly one of `p < q`, `p == q`, `q < p` holds. */
  lemma CmpTrichotomy<T>(p: Parr<T>, q: Parr<T>)
    ensures Lt(p, q) || p == q || Lt(q, p)
    ensures !(Lt(p, q) && p == q) && !(Lt(p, q) && Lt(q, p)) && !(p == q && Lt(q, p))
  {
  }

  /** `<=` is a total order on handles. */
  lemma LeIsTotalOrder<T>(p: Parr<T>, q: Parr<T>, r: Parr<T>)
    ensures Le(p, p)
    ensures Le(p, q) && Le(q, p) ==> p == q
    ensures Le(p, q) && Le(q, r) ==> Le(p, r)
    ensures Le(p, q) || Le(q, p)
  {
  }
}
