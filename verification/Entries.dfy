/** Page-table entry words and virtual addresses (kernel/src/mmu.h, kernel/src/mmu.c:52-74). */
module Entries {
  import opened Words
  import opened DirectMap

  const VALID := 0x01
  const READ := 0x02
  const WRITE := 0x04
  const EXEC := 0x08
  const USER := 0x10
  const GLOBAL := 0x20
  const ACCESSED := 0x40
  const DIRTY := 0x80
  const ALL_BITS := 0x3ff
  const NOT_ALL_BITS: u64 := 0xffff_ffff_ffff_fc00
  const NOT_OFFSET: u64 := 0xffff_ffff_ffff_f000

  predicate EntryValid(e: u64) { And(e, VALID) != 0 }

  predicate EntryFrame(e: u64) { And(e, READ) != 0 || And(e, WRITE) != 0 || And(e, EXEC) != 0 }

  /** `(data & ~MMU_ALL_BITS) << 2`: the physical address in the entry. */
  function EntryRaw(e: u64): u64 { And(e, NOT_ALL_BITS) * 4 % WORD }

  /** mmu_entry_phys: the direct-map alias when the MMU is on. */
  function EntryPhys(e: u64, on: bool): u64 { Phys2Safe(EntryRaw(e), on) }

  /** Signed `>> 2`. */
  function Sar2(x: u64): u64 { x / 4 + (if x >= 0x8000_0000_0000_0000 then 0xc000_0000_0000_0000 else 0) }

  /** mmu_entry_set_flags; a C int given as its 32-bit pattern. */
  function WithFlags(e: u64, flags: nat): u64
  {
    SplitBounds(e, flags);
    Or(And(e, NOT_ALL_BITS), And(flags, ALL_BITS))
  }

  /** mmu_entry_set_phys. */
  function WithPhys(e: u64, phys: u64): u64
  {
    PhysBounds(e, phys);
    Or(And(e, ALL_BITS), Sar2(And(phys, NOT_OFFSET)))
  }

  lemma SplitBounds(e: u64, flags: nat)
    ensures And(e, NOT_ALL_BITS) == e - e % 1024
    ensures And(flags, ALL_BITS) == flags % 1024
    ensures Or(And(e, NOT_ALL_BITS), And(flags, ALL_BITS)) == e - e % 1024 + flags % 1024
  {
    Literals();
    AndClear(e, 10, 64);
    AndMask(flags, 10);
    DivModUnique(e - e % 1024, 1024, e / 1024, 0);
    OrDisjoint(e - e % 1024, flags % 1024, 10);
  }

  lemma PhysBounds(e: u64, phys: u64)
    ensures And(phys, NOT_OFFSET) == phys - phys % 4096
    ensures Or(And(e, ALL_BITS), Sar2(And(phys, NOT_OFFSET))) == e % 1024 + Sar2(phys - phys % 4096)
  {
    Literals();
    AndClear(phys, 12, 64);
    AndMask(e, 10);
    var s := Sar2(phys - phys % 4096);
    assert phys - phys % 4096 == 4096 * (phys / 4096);
    SarPage(phys / 4096);
    var t :| 0 <= t < 4 && s == 1024 * (phys / 4096 + 0x10_0000_0000_0000 * t);
    DivModUnique(s, 1024, phys / 4096 + 0x10_0000_0000_0000 * t, 0);
    OrCommutes(e % 1024, s);
    OrDisjoint(s, e % 1024, 10);
  }

  lemma ThreeBits(n: nat)
    ensures n % 8 != 0 <==> n % 2 == 1 || n / 2 % 2 == 1 || n / 4 % 2 == 1
  {
    var a, b, c := n / 2, n / 2 / 2, n / 2 / 2 / 2;
    var r := 2 * (a % 2) + n % 2;
    DivModUnique(n, 4, b, r);
    DivModUnique(n, 8, c, 4 * (b % 2) + r);
  }

  lemma PageField(k: nat)
    ensures (1024 * k) * 4 % WORD == 4096 * (k % 0x10_0000_0000_0000)
  {
  }

  /** What the tests and the address field of an entry mean arithmetically. */
  lemma EntryFields(e: u64)
    ensures EntryValid(e) <==> e % 2 == 1
    ensures EntryFrame(e) <==> e / 2 % 8 != 0
    ensures EntryFrame(e) <==> e / 2 % 2 == 1 || e / 4 % 2 == 1 || e / 8 % 2 == 1
    ensures EntryRaw(e) == e / 1024 % 0x10_0000_0000_0000 * 4096
  {
    hide And, Or;
    assert EntryValid(e) <==> e % 2 == 1 by {
      AndBit(e, 0);
    }
    assert (EntryFrame(e) <==> e / 2 % 8 != 0)
        && (EntryFrame(e) <==> e / 2 % 2 == 1 || e / 4 % 2 == 1 || e / 8 % 2 == 1) by {
      assert Pow2(2) == 4 && Pow2(3) == 8;
      AndBit(e, 1);
      AndBit(e, 2);
      AndBit(e, 3);
      ThreeBits(e / 2);
    }
    assert And(e, NOT_ALL_BITS) == 1024 * (e / 1024) by {
      SplitBounds(e, 0);
    }
    PageField(e / 1024);
  }

  lemma LowFlags(f: nat)
    ensures f % 1024 % 2 == f % 2
    ensures f % 1024 / 2 % 8 == f / 2 % 8
  {
    assert f == 1024 * (f / 1024) + f % 1024;
    assert f / 2 == 512 * (f / 1024) + f % 1024 / 2;
  }

  /** The tests only read the flag bits. */
  lemma FlagTests(e: u64)
    ensures EntryValid(e) <==> e % 1024 % 2 == 1
    ensures EntryFrame(e) <==> e % 1024 / 2 % 8 != 0
  {
    hide And, Or, Pow2;
    EntryFields(e);
    LowFlags(e);
  }

  lemma OrFlags(flags: nat)
    ensures Or(flags, VALID + ACCESSED + DIRTY) % 2 == 1
    ensures Or(flags, VALID + ACCESSED + DIRTY) / 2 % 8 == 0 <==> flags / 2 % 8 == 0
  {
    hide And, Or;
    var b := VALID + ACCESSED + DIRTY;
    var f := Or(flags, b);
    assert Pow2(0) == 1 && Pow2(1) == 2 && Pow2(2) == 4 && Pow2(3) == 8;
    OrBits(flags, b, 0);
    OrBits(flags, b, 1);
    OrBits(flags, b, 2);
    OrBits(flags, b, 3);
    ThreeBits(flags / 2);
    ThreeBits(f / 2);
  }

  function PageBase(a: u64): u64 {
    a - a % 4096
  }

  /** Setting flags and then the address gives exactly those flags and that page. */
  lemma EntryBuilt(e: u64, flags: nat, phys: u64)
    ensures WithPhys(WithFlags(e, flags), phys) % 1024 == flags % 1024
    ensures EntryRaw(WithPhys(WithFlags(e, flags), phys)) == PageBase(phys)
  {
    hide And, Or, Pow2;
    FlagsReplaced(e, flags);
    var f := WithFlags(e, flags);
    var b := WithPhys(f, phys);
    PhysBounds(f, phys);
    var q := phys / 4096;
    assert phys - phys % 4096 == 4096 * q;
    SarPage(q);
    var t :| 0 <= t < 4 && Sar2(4096 * q) == 1024 * (q + 0x10_0000_0000_0000 * t);
    DivModUnique(b, 1024, q + 0x10_0000_0000_0000 * t, f % 1024);
    DivModUnique(q + 0x10_0000_0000_0000 * t, 0x10_0000_0000_0000, t, q);
    EntryFields(b);
  }

  lemma SarPage(q: nat)
    requires 4096 * q < WORD
    ensures exists t :: 0 <= t < 4 && Sar2(4096 * q) == 1024 * (q + 0x10_0000_0000_0000 * t)
  {
    assert 4096 * q / 4 == 1024 * q;
    var t := if 4096 * q >= 0x8000_0000_0000_0000 then 3 else 0;
    assert Sar2(4096 * q) == 1024 * (q + 0x10_0000_0000_0000 * t);
  }

  /** Setting flags keeps the address. */
  lemma FlagsReplaced(e: u64, flags: nat)
    ensures WithFlags(e, flags) % 1024 == flags % 1024
    ensures EntryRaw(WithFlags(e, flags)) == EntryRaw(e)
  {
    hide And, Or, Pow2;
    SplitBounds(e, flags);
    var w := WithFlags(e, flags);
    assert w == 1024 * (e / 1024) + flags % 1024;
    DivModUnique(w, 1024, e / 1024, flags % 1024);
    EntryFields(e);
    EntryFields(w);
  }

  // ----- virtual addresses -----

  /** The three 9-bit indices of an address, root level first. */
  type Vpns = v: seq<nat> | |v| == 3 && v[0] < 512 && v[1] < 512 && v[2] < 512 witness [0, 0, 0]

  function Field(va: u64, shift: nat): (f: nat)
    ensures f < 512
  {
    Literals();
    AndMask(va / Pow2(shift), 9);
    And(va / Pow2(shift), 0x1ff)
  }

  /** get_vpns */
  function GetVpns(va: u64): Vpns {
    [Field(va, 30), Field(va, 21), Field(va, 12)]
  }

  function GetOffset(va: u64): nat {
    And(va, 0xfff)
  }

  lemma VpnFields(va: u64)
    ensures GetVpns(va) == [va / 0x4000_0000 % 512, va / 0x20_0000 % 512, va / 0x1000 % 512]
    ensures GetOffset(va) == va % 0x1000
  {
    Literals();
    AndMask(va / 0x4000_0000, 9);
    AndMask(va / 0x20_0000, 9);
    AndMask(va / 0x1000, 9);
    AndMask(va, 12);
  }

  lemma VpnParts(va: nat)
    ensures va / 0x1000 % 512 * 0x1000 + va % 0x1000 == va % 0x20_0000
    ensures va / 0x20_0000 % 512 * 0x20_0000 + va % 0x20_0000 == va % 0x4000_0000
  {
  }

  /** The 27-bit virtual page number. */
  function PageNumber(va: u64): nat {
    va / 0x1000 % 0x800_0000
  }

  lemma Digits(t: nat)
    ensures t % 0x800_0000 / 0x4_0000 == t / 512 / 512 % 512
    ensures t % 0x800_0000 / 512 == t / 512 / 512 % 512 * 512 + t / 512 % 512
    ensures t % 0x800_0000 == (t / 512 / 512 % 512 * 512 + t / 512 % 512) * 512 + t % 512
  {
    var c, a := t % 512, t / 512;
    var d, b := a % 512, a / 512;
    var h, q := b % 512, b / 512;
    var n := (h * 512 + d) * 512 + c;
    DivModUnique(t, 0x800_0000, q, n);
    DivModUnique(n, 512, h * 512 + d, c);
    DivModUnique(n, 0x4_0000, h, d * 512 + c);
  }

  /** The three indices are the page number in base 512. */
  lemma VpnNumber(va: u64)
    ensures var v := GetVpns(va);
      && PageNumber(va) / 0x4_0000 == v[0]
      && PageNumber(va) / 512 == v[0] * 512 + v[1]
      && PageNumber(va) == (v[0] * 512 + v[1]) * 512 + v[2]
  {
    VpnFields(va);
    var o, t := va % 0x1000, va / 0x1000;
    DivModUnique(va, 0x20_0000, t / 512, t % 512 * 0x1000 + o);
    DivModUnique(va, 0x4000_0000, t / 512 / 512, (t / 512 % 512 * 512 + t % 512) * 0x1000 + o);
    Digits(t);
  }
}
