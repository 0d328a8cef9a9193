/**
  The two unit tests of the pointer array, stated for every address at which
  the test array may be placed: a view of the byte array `[11, 22, 33]` reads
  `22` at index 1, whether it is built from the slice or from its pointer.
 */
module ParrTests {
  import opened PointerArray

  type u8 = x: int | 0 <= x < 256

  /** `[11_u8, 22, 33].as_slice()`, with its first element at `addr`. */
  function TestArray(addr: u64): (s: Slice<u8>)
  {
    Slice(addr, [11, 22, 33])
  }

  /** `Parr::from(slice)[1] == 22`, for `u8` elements of one byte. */
  lemma FromSliceReadsIndexOne(mem: Memory<u8>, addr: u64)
    requires Placed(mem, 1, TestArray(addr))
    ensures ValidSlot(mem, 1, From(TestArray(addr)), 1)
    ensures Index(mem, 1, From(TestArray(addr)), 1) == 22
  {
    IndexFromSlice(mem, 1, TestArray(addr), 1);
  }

  /** `Parr::new(array.as_ptr() as u64)[1] == 22`. */
  lemma FromPtrReadsIndexOne(mem: Memory<u8>, addr: u64)
    requires Placed(mem, 1, TestArray(addr))
    ensures ValidSlot(mem, 1, New<u8>(AsPtr(TestArray(addr))), 1)
    ensures Index(mem, 1, New<u8>(AsPtr(TestArray(addr))), 1) == 22
  {
    FromIsNewOfAsPtr(TestArray(addr));
    IndexFromSlice(mem, 1, TestArray(addr), 1);
  }
}
