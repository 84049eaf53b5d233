/** The aarch64 3-level translation tables (39-bit addresses, 4 KiB granule): descriptors,
    the hardware walk of VMSAv8-64, and the tables a process root grows. Descriptors are
    `u64` values as naturals, read by division and remainder. */
module Aarch64Walk {

  import opened Options
  import opened PhysMemory

  const GIB: nat := 0x4000_0000
  const MIB2: nat := 0x20_0000
  const PAGE: nat := 0x1000
  const VA_SPAN: nat := 0x80_0000_0000
  const FRAME_SPAN: nat := 0x10_0000_0000
  const ADDR_SPAN: nat := 0x1_0000_0000_0000

  // ── Descriptors ────────────────────────────────────────────────────────────

  /** The frame in the output-address field, bits 12 to 47. */
  function OutFrame(d: nat): nat { d / PAGE % FRAME_SPAN }

  /** `d & ADDR_MASK` */
  function OutAddr(d: nat): nat { OutFrame(d) * PAGE }

  predicate IsValid(d: nat) { d % 2 == 1 }

  /** Bit 1: a table at levels 1 and 2, a page at level 3. */
  predicate TableBit(d: nat) { d / 2 % 2 == 1 }

  function Two(b: bool): nat { if b then 2 else 0 }

  lemma LowPart(n: nat, low: nat)
    requires low < PAGE
    ensures var d := n * PAGE + low;
            d / PAGE == n && d / 2 % 2 == low / 2 % 2 && d % 2 == low % 2
  {
    SecondBit(n * 1024, low);
    assert n * PAGE + low == 4 * (n * 1024) + low;
  }

  lemma SecondBit(k: nat, low: nat)
    ensures (4 * k + low) / 2 % 2 == low / 2 % 2
  {
    assert (4 * k + low) / 2 == 2 * k + low / 2;
    assert (2 * k + low / 2) % 2 == low / 2 % 2;
  }

  lemma FieldsFit(d: nat)
    ensures d >= OutAddr(d) + Two(TableBit(d)) + d % 2
  {
    var n, low := d / PAGE, d % PAGE;
    LowPart(n, low);
    assert low >= low / 2 % 2 * 2 + low % 2;
    assert n >= OutFrame(d);
  }

  /** Everything but the address and bit 1: permissions, memory type, shareability. */
  function Attr(d: nat): nat {
    FieldsFit(d);
    d - OutAddr(d) - Two(TableBit(d))
  }

  /** `(child & ADDR_MASK) | VALID | TABLE` */
  function TableDesc(f: nat): nat
    requires f < LIMIT
  {
    f * PAGE + 3
  }

  lemma TableDescFields(f: nat)
    requires f < LIMIT
    ensures var d := TableDesc(f);
            IsValid(d) && TableBit(d) && OutFrame(d) == f
  {
  }

  /** Entry `i` of the table a block is split into: the block's attributes at the address of
      the `i`-th piece, as a page when the pieces are 4 KiB. */
  function SubDesc(d: nat, i: nat, size: nat): nat {
    OutAddr(OutAddr(d) + i * size) + Attr(d) + Two(size == PAGE)
  }

  /** A block of the given size starts on a multiple of it. */
  predicate AlignedBlock(d: nat, size: nat)
    requires size > 0
  {
    OutAddr(d) % size == 0
  }

  lemma SubAddr(a: nat, i: nat, size: nat)
    requires size == MIB2 || size == PAGE
    requires a < ADDR_SPAN && a % (512 * size) == 0 && i < ENTRIES
    ensures (a + i * size) % PAGE == 0 && a + i * size < ADDR_SPAN
    ensures OutAddr(a + i * size) == a + i * size
  {
    var q := a / (512 * size);
    assert a == q * (512 * size);
    if size == MIB2 {
      assert (a + i * size) == (q * 0x4_0000 + i * 512) * PAGE;
    } else {
      assert (a + i * size) == (q * 512 + i) * PAGE;
    }
  }

  lemma OutInside(d: nat)
    ensures OutAddr(d) < ADDR_SPAN
  {
  }

  lemma SumFields(a: nat, attr: nat, t: nat, d: nat)
    requires a % PAGE == 0 && a < ADDR_SPAN && t <= 1
    requires !TableBit(d) && attr == Attr(d)
    ensures var s := a + attr + 2 * t;
            && OutAddr(s) == a && TableBit(s) == (t == 1) && Attr(s) == attr && IsValid(s) == IsValid(d)
  {
    var hi, low := d / ADDR_SPAN, d % PAGE;
    var f := a / PAGE;
    assert d / PAGE == hi * FRAME_SPAN + OutFrame(d);
    assert attr == hi * ADDR_SPAN + low;
    LowPart(d / PAGE, low);
    var s := a + attr + 2 * t;
    SumLow(low, t);
    assert s == (hi * FRAME_SPAN + f) * PAGE + (low + 2 * t);
    SumHigh(hi, f, low + 2 * t);
  }

  lemma SumLow(low: nat, t: nat)
    requires low < PAGE && low / 2 % 2 == 0 && t <= 1
    ensures low + 2 * t < PAGE && (low + 2 * t) / 2 % 2 == t && (low + 2 * t) % 2 == low % 2
  {
    assert low == 4 * (low / 4) + low % 2;
    assert (low + 2 * t) / 2 == 2 * (low / 4) + t;
  }

  lemma SumHigh(hi: nat, f: nat, low: nat)
    requires f < FRAME_SPAN && low < PAGE
    ensures var s := (hi * FRAME_SPAN + f) * PAGE + low;
            OutFrame(s) == f && s / 2 % 2 == low / 2 % 2 && s % 2 == low % 2
  {
    LowPart(hi * FRAME_SPAN + f, low);
    assert (hi * FRAME_SPAN + f) % FRAME_SPAN == f;
  }

  /** A piece of a split block keeps the attributes and takes its share of the address. */
  lemma SubFields(d: nat, i: nat, size: nat)
    requires size == MIB2 || size == PAGE
    requires IsValid(d) && !TableBit(d) && AlignedBlock(d, 512 * size) && i < ENTRIES
    ensures var s := SubDesc(d, i, size);
            && IsValid(s) && TableBit(s) == (size == PAGE)
            && OutAddr(s) == OutAddr(d) + i * size && Attr(s) == Attr(d)
  {
    hide OutAddr, OutFrame, TableBit, Attr;
    OutInside(d);
    SubAddr(OutAddr(d), i, size);
    SumFields(OutAddr(d) + i * size, Attr(d), if size == PAGE then 1 else 0, d);
  }

  // ── Indices ────────────────────────────────────────────────────────────────

  function I1(va: nat): (i: nat)
    ensures i < ENTRIES
  {
    va / GIB % ENTRIES
  }

  function I2(va: nat): (i: nat)
    ensures i < ENTRIES
  {
    va / MIB2 % ENTRIES
  }

  function I3(va: nat): (i: nat)
    ensures i < ENTRIES
  {
    va / PAGE % ENTRIES
  }

  /** A block offset is the index of the piece and the offset inside the piece. */
  lemma OffsetSplits(va: nat)
    ensures va % GIB == I2(va) * MIB2 + va % MIB2
    ensures va % MIB2 == I3(va) * PAGE + va % PAGE
  {
    Offset(va, MIB2, MIB2 * 512);
    Offset(va, PAGE, PAGE * 512);
  }

  lemma Offset(va: nat, size: nat, block: nat)
    requires size == MIB2 || size == PAGE
    requires block == 512 * size
    ensures va % block == va / size % 512 * size + va % size
  {
    var q, r := va / size, va % size;
    assert va == q * size + r && q == q / 512 * 512 + q % 512;
    assert va == q / 512 * block + (q % 512 * size + r);
  }

  lemma SamePage(va: nat, vb: nat)
    requires va < VA_SPAN && vb < VA_SPAN
    ensures va / PAGE == vb / PAGE <==> I1(va) == I1(vb) && I2(va) == I2(vb) && I3(va) == I3(vb)
  {
    PageDigits(va);
    PageDigits(vb);
  }

  lemma PageDigits(va: nat)
    requires va < VA_SPAN
    ensures va / PAGE == (I1(va) * 512 + I2(va)) * 512 + I3(va)
  {
  }

  // ── The hardware walk ──────────────────────────────────────────────────────

  /** What a translation gives: the physical address and the attributes. */
  datatype Translation = Translation(pa: nat, attr: nat)

  /** A level-3 descriptor must have bit 1 set to be a page. */
  function PageAt(d: nat, va: nat): Option<Translation> {
    if IsValid(d) && TableBit(d) then Some(Translation(OutAddr(d) + va % PAGE, Attr(d))) else None
  }

  function BlockAt(d: nat, size: nat, va: nat): Option<Translation>
    requires size > 0
  {
    if IsValid(d) then Some(Translation(OutAddr(d) / size * size + va % size, Attr(d))) else None
  }

  function Hw3(m: Mem, t: nat, va: nat): Option<Translation> {
    if t < LIMIT then PageAt(m[t][I3(va)], va) else None
  }

  function Hw2(m: Mem, t: nat, va: nat): Option<Translation> {
    if t >= LIMIT then None
    else
      var d := m[t][I2(va)];
      if IsValid(d) && TableBit(d) then Hw3(m, OutFrame(d), va) else BlockAt(d, MIB2, va)
  }

  /** The translation of an address from its level-1 root (Arm DDI 0487, section D8.3). */
  function Hw(m: Mem, root: nat, va: nat): Option<Translation> {
    if root >= LIMIT then None
    else
      var d := m[root][I1(va)];
      if IsValid(d) && TableBit(d) then Hw2(m, OutFrame(d), va) else BlockAt(d, GIB, va)
  }

  /** A 1 GiB block and the table of 2 MiB blocks it is split into translate alike. */
  lemma SplitGib(d: nat, va: nat)
    requires IsValid(d) && !TableBit(d) && AlignedBlock(d, GIB)
    ensures BlockAt(SubDesc(d, I2(va), MIB2), MIB2, va) == BlockAt(d, GIB, va)
    ensures !TableBit(SubDesc(d, I2(va), MIB2))
  {
    SubFields(d, I2(va), MIB2);
    OffsetSplits(va);
    SplitSum(OutAddr(d), I2(va), MIB2, GIB);
  }

  /** A 2 MiB block and the table of pages it is split into translate alike. */
  lemma SplitMib(d: nat, va: nat)
    requires IsValid(d) && !TableBit(d) && AlignedBlock(d, MIB2)
    ensures PageAt(SubDesc(d, I3(va), PAGE), va) == BlockAt(d, MIB2, va)
  {
    SubFields(d, I3(va), PAGE);
    OffsetSplits(va);
    SplitSum(OutAddr(d), I3(va), PAGE, MIB2);
  }

  lemma SplitSum(a: nat, i: nat, size: nat, whole: nat)
    requires (size == MIB2 && whole == GIB) || (size == PAGE && whole == MIB2)
    requires a % whole == 0
    ensures a / whole * whole == a
    ensures (a + i * size) / size * size == a + i * size
  {
    var q := a / whole;
    assert a == q * whole;
    if size == MIB2 {
      assert a + i * size == (q * 512 + i) * MIB2;
    } else {
      assert a + i * size == (q * 512 + i) * PAGE;
    }
  }
}
