/** Address-space configuration (simulator/vm_config.py): byte sizes of the virtual
    and physical memories and the number of offset bits, from which the page size,
    the frame count and the virtual page count are derived. Also the two ways the
    front ends split an address into page and offset: by shift and mask
    (ui/gui.py) and by division (ui/src/Interface.jsx). */
module VmConfig {

  function Pow2(n: nat): (r: nat)
    ensures r >= 1
  {
    if n == 0 then 1 else 2 * Pow2(n - 1)
  }

  /** Python's `a << k` for k >= 0: k doublings. */
  function ShiftLeft(a: int, k: nat): int
    decreases k
  {
    if k == 0 then a else ShiftLeft(2 * a, k - 1)
  }

  /** Python's `a >> k` for k >= 0: k halvings, each rounding toward minus infinity
      (Dafny's `/` by 2 does exactly that, for negative `a` too). */
  function ShiftRight(a: int, k: nat): int
    decreases k
  {
    if k == 0 then a else ShiftRight(a / 2, k - 1)
  }

  /** Python's `a & ((1 << k) - 1)`: the low k bits of `a`, lowest bit first. */
  function LowBits(a: int, k: nat): int
    decreases k
  {
    if k == 0 then 0 else a % 2 + 2 * LowBits(a / 2, k - 1)
  }

  datatype VMConfig = VMConfig(virtualMemorySize: int, physicalMemorySize: int, offsetBits: int)
  {
    /** `1 << offset_bits` */
    function PageSize(): (r: nat)
      requires offsetBits >= 0
      ensures r == Pow2(offsetBits)
    {
      ShiftLeftIsPow2(1, offsetBits);
      ShiftLeft(1, offsetBits)
    }

    /** `physical_memory_size // page_size` (floor division) */
    function NumFrames(): (r: int)
      requires offsetBits >= 0
      ensures r * PageSize() <= physicalMemorySize < (r + 1) * PageSize()
    {
      FloorDivision(physicalMemorySize, PageSize());
      physicalMemorySize / PageSize()
    }

    /** `virtual_memory_size // page_size` (floor division) */
    function NumVirtualPages(): (r: int)
      requires offsetBits >= 0
      ensures r * PageSize() <= virtualMemorySize < (r + 1) * PageSize()
    {
      FloorDivision(virtualMemorySize, PageSize());
      virtualMemorySize / PageSize()
    }

    /** Page number of an address by shift, as the pygame front end shows it. */
    function PageOf(addr: int): int
      requires offsetBits >= 0
    {
      ShiftRight(addr, offsetBits)
    }

    /** Offset of an address within its page, by mask. */
    function OffsetOf(addr: int): int
      requires offsetBits >= 0
    {
      LowBits(addr, offsetBits)
    }
  }

  lemma {:induction false} ShiftLeftIsPow2(a: int, k: nat)
    ensures ShiftLeft(a, k) == a * Pow2(k)
    decreases k
  {
    if k > 0 {
      ShiftLeftIsPow2(2 * a, k - 1);
      assert (2 * a) * Pow2(k - 1) == a * (2 * Pow2(k - 1));
    }
  }

  /** Dafny's `/` agrees with Python's `//` for a positive divisor. */
  lemma FloorDivision(a: int, b: int)
    requires b > 0
    ensures (a / b) * b <= a < (a / b + 1) * b
    ensures a % b == a - (a / b) * b
  {
  }

  /** Quotient and remainder are determined by `a == q * b + r` with `0 <= r < b`. */
  lemma DivModUnique(a: int, b: int, q: int, r: int)
    requires b > 0 && 0 <= r < b && a == q * b + r
    ensures q == a / b && r == a % b
  {
    FloorDivision(a, b);
    var d := q - a / b;
    assert d * b == (a % b) - r by {
      assert q * b == (a / b) * b + d * b;
    }
  }

  /** Shift and mask split an address exactly into whole pages and a remainder. */
  lemma {:induction false} ShiftAndMask(a: int, k: nat)
    ensures ShiftRight(a, k) * Pow2(k) + LowBits(a, k) == a
    ensures 0 <= LowBits(a, k) < Pow2(k)
    decreases k
  {
    if k > 0 {
      ShiftAndMask(a / 2, k - 1);
      var q, l, p := ShiftRight(a / 2, k - 1), LowBits(a / 2, k - 1), Pow2(k - 1);
      assert q * p + l == a / 2;
      assert q * (2 * p) == 2 * (q * p);
    }
  }

  /** The page number by shift (ui/gui.py) equals the page number by division
      (ui/src/Interface.jsx), and the offset by mask equals the remainder. */
  lemma ShiftIsDivision(c: VMConfig, addr: int)
    requires c.offsetBits >= 0
    ensures c.PageOf(addr) == addr / c.PageSize()
    ensures c.OffsetOf(addr) == addr % c.PageSize()
    ensures c.PageOf(addr) * c.PageSize() + c.OffsetOf(addr) == addr
    ensures 0 <= c.OffsetOf(addr) < c.PageSize()
  {
    ShiftAndMask(addr, c.offsetBits);
    DivModUnique(addr, c.PageSize(), c.PageOf(addr), c.OffsetOf(addr));
  }

  /** tests/test_vm_config.py, first case. */
  lemma SmallConfiguration()
    ensures var c := VMConfig(256, 64, 4);
      c.PageSize() == 16 && c.NumFrames() == 4 && c.NumVirtualPages() == 16
  {
  }

  /** tests/test_vm_config.py, second case. */
  lemma StandardConfiguration()
    ensures var c := VMConfig(65536, 4096, 8);
      c.PageSize() == 256 && c.NumFrames() == 16 && c.NumVirtualPages() == 256
  {
  }
}
