/**
  Virtual addresses as index paths, and the layout of the address space
  (kernel/src/constants.rs).  The five fields that `build_addr` shifts into
  place do not overlap, so its bitwise or is written as a sum.
 */
module Addresses {
  import opened Arithmetic
  import opened PhysicalMemory
  import opened PageTables

  const L4_SPAN: nat := 0x80_0000_0000
  const L3_SPAN: nat := 0x4000_0000
  const L2_SPAN: nat := 0x20_0000

  function BuildAddr(l4: Index, l3: Index, l2: Index, l1: Index, offset: nat): (a: nat)
    requires offset < 4096
  {
    l4 * L4_SPAN + l3 * L3_SPAN + l2 * L2_SPAN + l1 * 4096 + offset
  }

  /** The indices that `print_addr` prints. */
  function PageOf(a: nat): (p: Page)
  {
    var l1 := a / 4096;
    var l2 := l1 / 512;
    var l3 := l2 / 512;
    var l4 := l3 / 512;
    Page(l4 % 512, l3 % 512, l2 % 512, l1 % 512)
  }

  function StartOf(p: Page): (a: nat) { BuildAddr(p.l4, p.l3, p.l2, p.l1, 0) }

  /** Decomposition undoes `build_addr`. */
  lemma DecomposeBuild(l4: Index, l3: Index, l2: Index, l1: Index, offset: nat)
    requires offset < 4096
    ensures PageOf(BuildAddr(l4, l3, l2, l1, offset)) == Page(l4, l3, l2, l1)
    ensures BuildAddr(l4, l3, l2, l1, offset) % 4096 == offset
    ensures BuildAddr(l4, l3, l2, l1, offset) < 512 * L4_SPAN
  {
    var n3 := l4 * 512 + l3;
    var n2 := n3 * 512 + l2;
    var n1 := n2 * 512 + l1;
    assert BuildAddr(l4, l3, l2, l1, offset) == n1 * 4096 + offset;
    DivUnique(n1 * 4096 + offset, 4096, n1, offset);
    DivUnique(n1, 512, n2, l1);
    DivUnique(n2, 512, n3, l2);
    DivUnique(n3, 512, l4, l3);
  }

  /** The indices are bits 39 to 47, 30 to 38, 21 to 29 and 12 to 20 of the address. */
  lemma IndexBits(a: nat)
    ensures PageOf(a).l4 == a / 0x80_0000_0000 % 512 && PageOf(a).l3 == a / 0x4000_0000 % 512
    ensures PageOf(a).l2 == a / 0x20_0000 % 512 && PageOf(a).l1 == a / 0x1000 % 512
  {
    DivDiv(a, 0x1000, 512);
    DivDiv(a, 0x20_0000, 512);
    DivDiv(a, 0x4000_0000, 512);
  }

  /** And `build_addr` undoes the decomposition, for every 48-bit address. */
  lemma BuildDecompose(a: nat)
    requires a < 512 * L4_SPAN
    ensures StartOf(PageOf(a)) + a % 4096 == a
  {
    var n1 := a / 4096;
    var n2 := n1 / 512;
    var n3 := n2 / 512;
    assert a == n1 * 4096 + a % 4096;
    assert n1 == n2 * 512 + n1 % 512;
    assert n2 == n3 * 512 + n2 % 512;
    assert n3 == n3 / 512 * 512 + n3 % 512;
    assert n3 / 512 < 512;
  }

  const KERNEL_START: nat := BuildAddr(100, 0, 0, 0, 0)
  const KERNEL_HEAP_START: nat := BuildAddr(108, 0, 0, 0, 0)
  const KERNEL_AP_STACKS: nat := BuildAddr(109, 0, 0, 0, 0)
  const KERNEL_END: nat := BuildAddr(116, 0, 0, 0, 0)
  const USER_START: nat := BuildAddr(0, 0, 0, 0, 0)
  const USER_STACK_START: nat := BuildAddr(0, 4, 0, 0, 0)
  const USER_HEAP_START: nat := BuildAddr(0, 8, 0, 0, 0)
  const USER_END: nat := BuildAddr(1, 0, 0, 0, 0)
  const KERNEL_STACK_SIZE: nat := 4096 * 1024
  const USER_STACK_SIZE: nat := 4096 * 4096

  /** The range assertions of `map_ram_kernel` and `map_ram_user` are assertions about the L4 index. */
  lemma RangesAreSlots(a: nat)
    requires a < 512 * L4_SPAN
    ensures KERNEL_START <= a < KERNEL_END <==> Kernel(PageOf(a).l4)
    ensures USER_START <= a < USER_END <==> PageOf(a).l4 == 0
  {
    BuildDecompose(a);
    var p := PageOf(a);
    hide PageOf;
    assert p.l4 * L4_SPAN <= a < (p.l4 + 1) * L4_SPAN;
  }
}
