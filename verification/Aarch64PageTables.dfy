/** The aarch64 translation-table code itself, updating physical memory and the frame bitmap
    in place; each method does to them what its function of `Aarch64Space` says. */
module Aarch64PageTables {

  import opened Options
  import opened FrameAllocator
  import opened PhysMemory
  import opened Machines
  import opened Aarch64Walk
  import opened Aarch64Space

  /** Fills a zeroed table with the pieces of a block. */
  method FillPieces(hw: Machine, child: nat, d: nat, size: nat)
    requires child < LIMIT && size > 0 && hw.mem[child] == ZeroTable()
    modifies hw`mem
    ensures hw.mem == old(hw.mem)[child := SubTable(d, size)]
  {
    ghost var m, full := hw.mem, SubTable(d, size);
    assert full[..0] + m[child][0..] == m[child];
    for i := 0 to ENTRIES
      invariant hw.mem == m[child := full[..i] + m[child][i..]]
    {
      PieceStep(full, m[child], i);
      var subPa := OutAddr(d) + i * size;
      hw.mem := Write(hw.mem, child, i, OutAddr(subPa) + Attr(d) + Two(size == PAGE));
    }
    assert full[..ENTRIES] + m[child][ENTRIES..] == full;
  }

  lemma PieceStep(full: Table, t: Table, i: nat)
    requires i < ENTRIES
    ensures (full[..i] + t[i..])[i := full[i]] == full[..i + 1] + t[i + 1..]
  {
  }

  method EnsureChild(hw: Machine, t: nat, i: nat, size: nat) returns (r: Outcome<nat>)
    requires hw.Valid() && i < ENTRIES && size > 0
    modifies hw, hw.frames, hw.frames.bits
    ensures hw.Valid() && hw.frames.usable == old(hw.frames.usable)
    ensures (r, hw.Now()) == EnsureTable(old(hw.Now()), t, i, size)
  {
    hide SubDesc, IsValid, TableBit, OutFrame;
    if t >= LIMIT { return Panicked; }
    var d := hw.mem[t][i];
    if IsValid(d) && TableBit(d) { return Done(OutFrame(d)); }
    var f := hw.AllocZeroed();
    if f.None? { return Failed; }
    if IsValid(d) {
      FillPieces(hw, f.value, d, size);
    }
    assert hw.mem == old(hw.mem)[f.value := ChildTable(d, size)];
    hw.mem := Write(hw.mem, t, i, TableDesc(f.value));
    return Done(f.value);
  }

  method MapPageIn(hw: Machine, root: nat, virt: nat, phys: nat, rights: PageRights) returns (r: Outcome<()>)
    requires hw.Valid()
    modifies hw, hw.frames, hw.frames.bits
    ensures hw.Valid() && hw.frames.usable == old(hw.frames.usable)
    ensures (r, hw.Now()) == MapPage(old(hw.Now()), root, virt, PageDesc(phys, rights))
  {
    hide EnsureTable, PageDesc, I1, I2, I3;
    var l2 := EnsureChild(hw, root, I1(virt), MIB2);
    if l2.Failed? { return Failed; }
    if l2.Panicked? { return Panicked; }
    var l3 := EnsureChild(hw, l2.value, I2(virt), PAGE);
    if l3.Failed? { return Failed; }
    if l3.Panicked? || l3.value >= LIMIT { return Panicked; }
    hw.mem := Write(hw.mem, l3.value, I3(virt), PageDesc(phys, rights));
    return Done(());
  }

  method UpdateUserPageFlags(hw: Machine, root: nat, virt: nat, writable: bool, exec: bool) returns (ok: bool)
    modifies hw`mem
    ensures (ok, hw.mem) == UpdateFlags(old(hw.mem), root, virt, writable, exec)
  {
    hide Walk, WithRights;
    var slot := Walk(hw.mem, root, virt);
    if slot.None? || slot.value.0 >= LIMIT { return false; }
    hw.mem := Write(hw.mem, slot.value.0, I3(virt), WithRights(slot.value.1, writable, exec));
    return true;
  }

  method UnmapPage(hw: Machine, root: nat, virt: nat) returns (r: Option<nat>)
    modifies hw`mem
    ensures (r, hw.mem) == UnmapUserPage(old(hw.mem), root, virt)
  {
    hide Walk;
    var slot := Walk(hw.mem, root, virt);
    if slot.None? || slot.value.0 >= LIMIT { return None; }
    hw.mem := Write(hw.mem, slot.value.0, I3(virt), 0);
    return Some(OutAddr(slot.value.1));
  }

  /** A new root seeded with the kernel's level-1 table. */
  method AllocRoot(hw: Machine, kernelRoot: nat) returns (r: Option<nat>)
    requires hw.Valid() && kernelRoot < LIMIT && kernelRoot !in hw.frames.free
    modifies hw, hw.frames, hw.frames.bits
    ensures hw.Valid() && hw.frames.usable == old(hw.frames.usable)
    ensures r.None? <==> old(hw.frames.free) == {}
    ensures r.Some? ==>
              && r.value == Least(old(hw.frames.free)) && hw.frames.free == old(hw.frames.free) - {r.value}
              && hw.mem == old(hw.mem)[r.value := old(hw.mem)[kernelRoot]]
  {
    r := hw.AllocZeroed();
    if r.Some? {
      hw.mem := hw.mem[r.value := hw.mem[kernelRoot]];
    }
  }
}
