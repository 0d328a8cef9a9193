# Pointer array `Parr<T>` in Dafny

A model of `parr`, a `no_std` Rust crate whose only type, `Parr<T>`, is a
one-word, non-owning handle holding the base address of an existing memory
region. It lets callers index that region as an array of `T`, without bounds
checks, length or lifetime tracking.

The model (module `PointerArray`, file `parr.dfy`):

- `Parr<T>` is a datatype around the raw pointer, a 64-bit address `u64`.
- Memory is an immutable `map<u64, T>` from the byte address of a slot to the
  element stored there. `size` stands for `size_of::<T>()`. It may be 0, since
  zero-sized types are `Sized` too. Every lemma holds for every size;
  `SlotsDisjoint` only says something useful when `size > 0`.
- `New`, `Parr.Base`, `From` and `AsPtr` are the constructors, the accessor and
  the slice's first-element address.
- `Index` reads `mem[base + i * size]`. Its `requires` (`ValidSlot`) is what
  `ptr::add` followed by a dereference leaves to the caller, and to undefined
  behaviour when broken. The byte offset must fit in `isize`, the address must
  stay below 2^64, and it must be a live slot.
- `Placed(mem, size, s)` says that slice `s` lies in memory. Element `k` is at
  `s.addr + k * size`. As for every Rust slice, the length is a `usize` and the
  slice spans at most `isize::MAX` bytes.
- `View(mem, size, p, n)` is the array of the first `n` elements that handle
  `p` presents, read through `Index`.
- `Eq`, `Cmp`, `Le` and `Lt` model the derived `PartialEq`/`Ord`/`PartialOrd`,
  which compare the raw pointer, that is, the address.

Module `ParrTests` (file `parr_tests.dfy`) states the crate's two unit tests
for every address at which the test array may lie.

Indexing is read-only. `Index` is a function of an immutable memory and a
handle, so it changes neither. `IndexReadsOnlyItsSlot` also shows that it reads
nothing besides its one slot.

## Model

| member | source | states |
|---|---|---|
| `PointerArray.Parr.Base` | src/lib.rs:33-36 | the handle holds nothing but the address that `base` returns |
| `PointerArray.New` | src/lib.rs:22-31 | `new` accepts every `u64` with no validation, and `base` of the result is that address |
| `PointerArray.From` | src/lib.rs:38-48 | `from` keeps the address of the slice's first element as the base |
| `PointerArray.BaseOfNew` | src/lib.rs:29-36 | round trip: `new(b).base() == b` for every `b` |
| `PointerArray.NewOfBase` | src/lib.rs:20-36 | round trip: `new(p.base()) == p`, so a handle is determined by its address alone |
| `PointerArray.AsPtr` | src/lib.rs:71 | `as_ptr` gives the address of the slice's first element, the only place the slice is located |
| `PointerArray.Index` | src/lib.rs:49-55 | under `ValidSlot` (the unchecked `add` plus dereference obligation of src/lib.rs:52-53: byte offset within `isize`, address below 2^64, a live slot), index `i` reads `mem[base + i * size]` |
| `PointerArray.FromKeepsOnlyAddress` | src/lib.rs:38-48 | two slices give equal handles exactly when their first-element addresses are equal; the length is dropped |
| `PointerArray.FromIsNewOfAsPtr` | src/lib.rs:38-48 | `from(s)` is the same handle as `new(s.as_ptr() as u64)` |
| `PointerArray.IndexCountsElements` | src/lib.rs:49-55 | index `i` is a valid read exactly at the slot `i * size_of::<T>()` bytes past the base; it reads what index 0 of `new(base + i * size)` reads |
| `PointerArray.IndexShift` | src/lib.rs:49-55 | element offsets add up: index `i + j` of `p` is index `j` of the handle based `i` elements past `p` |
| `PointerArray.SlotsDisjoint` | src/lib.rs:51-54 | the slot of a larger index starts at least one element after that of a smaller index, so for non-zero sizes distinct indexes never overlap |
| `PointerArray.IndexReadsOnlyItsSlot` | src/lib.rs:49-55 | indexing reads only its one slot; any memory that agrees on that slot gives the same element |
| `PointerArray.IndexFromSlice` | src/lib.rs:38-55 | for a handle built from a placed slice, every index below the slice's length is a valid read and yields that slice element |
| `PointerArray.View` | src/lib.rs:14-20 | the first `n` elements the handle presents as an array: `n` of them, element `k` being what index `k` reads |
| `PointerArray.ViewFromSlice` | src/lib.rs:38-55 | the array presented by a handle built from a placed slice, over the slice's length, is exactly the slice |
| `PointerArray.Eq` | src/lib.rs:12-20 | the derived equality holds exactly when the two handles are equal |
| `PointerArray.EqIffSameBase` | src/lib.rs:12-20 | two handles are equal exactly when their base addresses are equal |
| `PointerArray.Cmp` | src/lib.rs:12-20 | the derived `cmp` is `Equal` exactly on equal handles, and otherwise `Less` or `Greater` as the base addresses compare |
| `PointerArray.Le` | src/lib.rs:12-20 | derived `<=` is `<=` on the base addresses |
| `PointerArray.Lt` | src/lib.rs:12-20 | derived `<` is `<` on the base addresses |
| `PointerArray.CmpIsAddressOrder` | src/lib.rs:12-20 | `<`, `<=` and `cmp == Equal` agree with the numeric order and equality of the base addresses |
| `PointerArray.CmpAntisymmetric` | src/lib.rs:12-20 | swapping the operands of `cmp` reverses its result |
| `PointerArray.CmpTrichotomy` | src/lib.rs:12-20 | exactly one of `p < q`, `p == q`, `q < p` holds |
| `PointerArray.LeIsTotalOrder` | src/lib.rs:12-20 | `<=` on handles is reflexive, antisymmetric, transitive and total |
| `ParrTests.FromSliceReadsIndexOne` | src/lib.rs:62-67 | a view built with `from` over `[11, 22, 33]` at any address reads `22` at index 1 |
| `ParrTests.FromPtrReadsIndexOne` | src/lib.rs:69-74 | a view built with `new(as_ptr() as u64)` over `[11, 22, 33]` at any address reads `22` at index 1 |

## Left out

- The `Into<u64>` conversions of `new`'s argument (src/lib.rs:29) are not modelled. `New` takes the `u64` that `base.into()` yields, whatever the conversion does.
- Truncation of a `u64` address to a 32-bit pointer is not modelled. The model assumes a 64-bit target, where the cast at src/lib.rs:30 is the identity.
- Alignment, lifetimes, dangling pointers and pointer provenance are not modelled. They appear only as the `ValidSlot` requirement of `Index`, which says that the slot is live memory holding a `T`.
- `Index` returns the element itself, not a shared reference to it.
- `#[repr(transparent)]` (the one-word size guarantee), `Debug`, `Clone` and `Copy` are not modelled. They concern layout and formatting, and datatypes in Dafny are plain values anyway.
- The trait bounds that the derives put on `T` are not modelled. Derived `PartialEq`, `Eq`, `PartialOrd`, `Ord`, `Clone` and `Copy` exist for `Parr<T>` only when `T` has the same trait; `Eq`, `Cmp`, `Le` and `Lt` here exist for every `T`, with the same results.
- Mutable indexing and default construction are absent from the source, so the model has neither.
- Volatile, concurrent or hardware-modified memory is not modelled. Memory is an immutable map.
