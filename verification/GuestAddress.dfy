/**
 Guest-physical address arithmetic: which accesses are admitted, and which page range is
 mapped to serve one.
 */
module GuestAddress {
  import opened Common

  const PAGE := 4096
  const HIGH_RAM_BASE := 4 * 0x4000_0000

  /** The ceiling derived from the RAM size: a saturating 64-bit sum. */
  function RamSizeToMaxGpa(ramSize: nat): nat {
    Min(HIGH_RAM_BASE + ramSize, U64 - 1)
  }

  /** The range check: the end must be a 64-bit address below the ceiling. */
  predicate Admitted(addr: nat, len: nat, maxAddress: nat) {
    addr + len < U64 && addr + len <= maxAddress
  }

  function BaseOf(addr: nat): nat {
    addr / PAGE * PAGE
  }

  function RoundUp(n: nat): nat {
    (n + PAGE - 1) / PAGE * PAGE
  }

  /** The span mapped for an access, as 64-bit arithmetic computes it. */
  function SpanOf(addr: nat, len: nat, maxAddress: nat): (span: nat)
    requires Admitted(addr, len, maxAddress)
  {
    Min(RoundUp(addr + len - BaseOf(addr)) % U64, maxAddress - BaseOf(addr))
  }

  /** The same span without the 64-bit wrap-around: what a caller can compute beforehand. */
  function PageSpan(addr: nat, len: nat, maxAddress: nat): int {
    Min(RoundUp(addr + len - BaseOf(addr)), maxAddress - BaseOf(addr))
  }

  /** The base is page-aligned, the span does not reach past the ceiling, and the mapped
      length (the span truncated to 32 bits) holds the access exactly when the page span is
      below 4 GiB. */
  lemma MappingHoldsAccess(addr: nat, len: nat, maxAddress: nat)
    requires Admitted(addr, len, maxAddress)
    ensures BaseOf(addr) % 4096 == 0 && BaseOf(addr) <= addr < BaseOf(addr) + 4096
    ensures BaseOf(addr) + SpanOf(addr, len, maxAddress) <= maxAddress
    ensures addr - BaseOf(addr) + len <= SpanOf(addr, len, maxAddress) % U32 <==> PageSpan(addr, len, maxAddress) < U32
  {
    var need := addr + len - BaseOf(addr);
    var r := RoundUp(need);
    assert need <= r < need + PAGE;
    if r >= U64 {
      assert r == U64 by {
        assert r % PAGE == 0;
      }
    }
  }

  /** A non-empty access maps only pages it touches. */
  lemma MapsOnlyTouchedPages(addr: nat, len: nat, maxAddress: nat, page: nat)
    requires Admitted(addr, len, maxAddress) && len > 0
    requires page % PAGE == 0 && BaseOf(addr) <= page < BaseOf(addr) + SpanOf(addr, len, maxAddress)
    ensures page < addr + len && addr < page + PAGE
  {
    var need := addr + len - BaseOf(addr);
    assert need <= RoundUp(need) < need + PAGE;
  }

  /** An access of 4 GiB at the start of memory: its mapping, truncated to 32 bits, is empty. */
  lemma HugeAccessMapsNothing()
    ensures Admitted(0, U32, 2 * U32) && PageSpan(0, U32, 2 * U32) == U32 && SpanOf(0, U32, 2 * U32) % U32 == 0
  {
  }

  /** The 64-bit round-up is harmless exactly up to the last page. */
  lemma RoundUpWraps(n: nat)
    requires n < U64
    ensures RoundUp(n) < U64 <==> n <= U64 - PAGE
  {
  }

  /** RAM is split around the 32-bit hole: `low` bytes from zero, the rest from 4 GiB. */
  predicate InRam(gpa: nat, ramSize: nat, low: nat) {
    gpa < low || HIGH_RAM_BASE <= gpa < HIGH_RAM_BASE + (ramSize - low)
  }

  /** The derived ceiling admits every byte of every split that 64-bit addresses can name. */
  lemma CeilingAdmitsAllRam(ramSize: nat, low: nat, gpa: nat)
    requires low <= Min(ramSize, HIGH_RAM_BASE) && InRam(gpa, ramSize, low)
    ensures Admitted(gpa, 1, RamSizeToMaxGpa(ramSize)) <==> gpa + 1 < U64
  {
  }

  /** Exactly the accesses that end within 4 GiB plus the RAM size, and below 2^64, are admitted. */
  lemma CeilingIsExact(ramSize: nat, addr: nat, len: nat)
    ensures Admitted(addr, len, RamSizeToMaxGpa(ramSize)) <==>
      addr + len <= 0x1_0000_0000 + ramSize && addr + len < 0x1_0000_0000_0000_0000
  {
  }

  /** A flat ceiling of the RAM size rejects some byte of RAM exactly when RAM reaches past the
      hole while the low part does not fill the space below it. */
  lemma FlatCeilingRejectsHighRam(ramSize: nat, low: nat)
    requires low <= Min(ramSize, HIGH_RAM_BASE) && ramSize < U64
    ensures (exists gpa: nat :: InRam(gpa, ramSize, low) && !Admitted(gpa, 1, ramSize)) <==> low < Min(ramSize, HIGH_RAM_BASE)
  {
    if low < Min(ramSize, HIGH_RAM_BASE) {
      var top := HIGH_RAM_BASE + (ramSize - low) - 1;
      assert InRam(top, ramSize, low) && !Admitted(top, 1, ramSize);
    }
  }
}
