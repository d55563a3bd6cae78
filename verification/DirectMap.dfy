/** The kernel's window on physical memory (kernel/src/mmu.c, `phys2safe` and `safe2phys`). */
module DirectMap {
  import opened Words

  const KERNEL_SPACE_OFFSET: u64 := 0xffff_ffc0_0000_0000
  // Physical addresses below this bound have an alias above KERNEL_SPACE_OFFSET.
  const WINDOW: u64 := 0x40_0000_0000

  function Phys2Safe(a: u64, on: bool): u64 {
    if on && a <= KERNEL_SPACE_OFFSET then
      if (a + KERNEL_SPACE_OFFSET) % WORD >= KERNEL_SPACE_OFFSET
      then (a + KERNEL_SPACE_OFFSET) % WORD
      else 0
    else a
  }

  function Safe2Phys(a: u64, on: bool): u64 {
    if on && a >= KERNEL_SPACE_OFFSET then a - KERNEL_SPACE_OFFSET else a
  }

  lemma WindowRoundTrip(a: u64, on: bool)
    ensures Safe2Phys(Phys2Safe(a, on), on) == a <==> !on || a < WINDOW
  {
  }

  /** `phys2safe` may be applied twice (mmu.c:110) exactly to these addresses. */
  lemma TwiceIsOnce(a: u64, on: bool)
    ensures Phys2Safe(Phys2Safe(a, on), on) == Phys2Safe(a, on)
            <==> !on || 0 < a < WINDOW || a > KERNEL_SPACE_OFFSET
  {
  }
}
