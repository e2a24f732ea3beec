/** Relative pointers: the distance from a pointer's own slot to its target, modulo 2^64,
    with 0 for null. */
module Pointers {
  import opened Bytes

  datatype Pointer = NullPointer | Offset(target: nat)

  function DecodePointer(addr: nat, raw: nat): Pointer {
    if raw == 0 then NullPointer else Offset((addr + raw) % TWO_64)
  }

  function EncodePointer(addr: nat, target: nat): (raw: nat)
    ensures raw < TWO_64
  {
    (target - addr) % TWO_64
  }

  /** A pointer leads back to its target, and is null exactly when it points at itself. */
  lemma PointerRound(addr: nat, target: nat)
    requires addr < TWO_64 && target < TWO_64
    ensures DecodePointer(addr, EncodePointer(addr, target))
      == if addr == target then NullPointer else Offset(target)
  {
    if addr < target {
      assert EncodePointer(addr, target) == target - addr;
    } else if target < addr {
      assert EncodePointer(addr, target) == target - addr + TWO_64;
    }
  }
}
