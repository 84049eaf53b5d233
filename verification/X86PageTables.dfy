/** The x86_64 page-table code itself, updating physical memory and the frame bitmap in
    place; each method does to them what its function of `X86Space` and `X86Life` says. */
module X86PageTables {

  import opened Options
  import opened FrameAllocator
  import opened PhysMemory
  import opened Machines
  import opened X86Walk
  import opened X86Space
  import opened X86Life

  /** A root with its kernel entries copied up to entry `i`. */
  ghost function Copied(a: Table, b: Table, i: nat): Table
    requires 256 <= i <= ENTRIES
  {
    a[..256] + b[256..i] + a[i..]
  }

  lemma CopyStep(a: Table, b: Table, i: nat)
    requires 256 <= i < ENTRIES
    ensures Copied(a, b, i)[i := b[i]] == Copied(a, b, i + 1)
  {
  }

  lemma CopyBounds(a: Table, b: Table)
    ensures Copied(a, b, 256) == a && Copied(a, b, ENTRIES) == a[..256] + b[256..]
  {
  }

  method EnsureNextTable(hw: Machine, t: nat, i: nat) returns (r: Outcome<nat>)
    requires hw.Valid() && i < ENTRIES
    modifies hw, hw.frames, hw.frames.bits
    ensures hw.Valid() && hw.frames.usable == old(hw.frames.usable)
    ensures (r, hw.Now()) == EnsureNext(old(hw.Now()), t, i)
  {
    if t >= LIMIT { return Panicked; }
    var e := hw.mem[t][i];
    if Present(e) { return Done(FrameNo(e)); }
    var f := hw.AllocZeroed();
    if f.None? { return Failed; }
    hw.mem := Write(hw.mem, t, i, TableEntry(f.value));
    return Done(f.value);
  }

  method MapPage(hw: Machine, root: nat, virt: nat, phys: nat, flags: PageFlags) returns (r: Outcome<()>)
    requires hw.Valid()
    modifies hw, hw.frames, hw.frames.bits
    ensures hw.Valid() && hw.frames.usable == old(hw.frames.usable)
    ensures (r, hw.Now()) == X86Space.MapPageIn(old(hw.Now()), root, virt, phys, flags)
  {
    hide EnsureNext;
    ghost var s := hw.Now();
    var t, k := root, 4;
    while k > 1
      invariant 1 <= k <= 4 && hw.Valid() && hw.frames.usable == old(hw.frames.usable)
      invariant EnsureTables(s, root, 4, virt) == EnsureTables(hw.Now(), t, k, virt)
    {
      var o := EnsureNextTable(hw, t, Index(k, virt));
      match o {
        case Done(next) => t, k := next, k - 1;
        case Failed => return Failed;
        case Panicked => return Panicked;
      }
    }
    if t >= LIMIT { return Panicked; }
    hw.mem := Write(hw.mem, t, I1(virt), Entry(phys, flags));
    return Done(());
  }

  /** The four presence tests of the write paths. */
  method FindLeaf(hw: Machine, root: nat, virt: nat) returns (r: Outcome<nat>)
    ensures r == LeafTable(hw.mem, root, virt)
  {
    if root >= LIMIT { return Panicked; }
    var pml4e := hw.mem[root][I4(virt)];
    if !Present(pml4e) { return Failed; }
    if FrameNo(pml4e) >= LIMIT { return Panicked; }
    var pdpte := hw.mem[FrameNo(pml4e)][I3(virt)];
    if !Present(pdpte) { return Failed; }
    if FrameNo(pdpte) >= LIMIT { return Panicked; }
    var pde := hw.mem[FrameNo(pdpte)][I2(virt)];
    if !Present(pde) { return Failed; }
    if FrameNo(pde) >= LIMIT { return Panicked; }
    var pte := hw.mem[FrameNo(pde)][I1(virt)];
    if !Present(pte) { return Failed; }
    return Done(FrameNo(pde));
  }

  method UpdateUserPageFlags(hw: Machine, root: nat, virt: nat, writable: bool, exec: bool) returns (r: Outcome<()>)
    modifies hw
    ensures (r, hw.mem) == UpdateFlags(old(hw.mem), root, virt, writable, exec)
  {
    hide LeafTable, Entry;
    var o := FindLeaf(hw, root, virt);
    match o {
      case Done(t) =>
        if t >= LIMIT { return Panicked; }
        hw.mem := Write(hw.mem, t, I1(virt), Entry(hw.mem[t][I1(virt)], UserFlags(writable, exec)));
        return Done(());
      case Failed => return Failed;
      case Panicked => return Panicked;
    }
  }

  method UnmapUserPage(hw: Machine, root: nat, virt: nat) returns (r: Outcome<nat>)
    modifies hw
    ensures (r, hw.mem) == UnmapPage(old(hw.mem), root, virt)
  {
    hide LeafTable;
    var o := FindLeaf(hw, root, virt);
    match o {
      case Done(t) =>
        if t >= LIMIT { return Panicked; }
        var pte := hw.mem[t][I1(virt)];
        hw.mem := Write(hw.mem, t, I1(virt), 0);
        return Done(PhysOf(pte));
      case Failed => return Failed;
      case Panicked => return Panicked;
    }
  }

  method AllocUserPml4(hw: Machine, kernelRoot: nat) returns (r: Option<nat>)
    requires hw.Valid() && kernelRoot < LIMIT && kernelRoot !in hw.frames.free
    modifies hw, hw.frames, hw.frames.bits
    ensures hw.Valid() && hw.frames.usable == old(hw.frames.usable)
    ensures (r, hw.Now()) == AllocRoot(old(hw.Now()), kernelRoot)
    ensures r.None? <==> old(hw.frames.free) == {}
    ensures r.None? ==> hw.frames.free == old(hw.frames.free)
  {
    r := hw.AllocZeroed();
    if r.Some? {
      CopyKernelHalf(hw, kernelRoot, r.value);
    }
  }

  method CopyKernelHalf(hw: Machine, kernelRoot: nat, root: nat)
    requires kernelRoot < LIMIT && root < LIMIT && kernelRoot != root
    modifies hw`mem
    ensures hw.mem == old(hw.mem)[root := old(hw.mem)[root][..256] + old(hw.mem)[kernelRoot][256..]]
  {
    ghost var m := hw.mem;
    CopyBounds(m[root], m[kernelRoot]);
    for i := 256 to ENTRIES
      invariant hw.mem == m[root := Copied(m[root], m[kernelRoot], i)]
    {
      CopyStep(m[root], m[kernelRoot], i);
      hw.mem := Write(hw.mem, root, i, hw.mem[kernelRoot][i]);
    }
  }

  /** Handles a page fault on the root in CR3. */
  method DemandPage(hw: Machine, root: nat, cr2: nat, error: nat) returns (resolved: bool)
    requires hw.Valid()
    modifies hw, hw.frames, hw.frames.bits
    ensures hw.Valid() && hw.frames.usable == old(hw.frames.usable)
    ensures (resolved, hw.Now()) == Demand(old(hw.Now()), root, cr2, error)
  {
    hide X86Space.MapPageIn, Walk;
    var page := cr2 / 4096 * 4096;
    if error % 2 == 1 { return false; }
    if TranslateUserPage(hw.mem, root, page).Some? { return true; }
    if MIRROR_BASE <= page < ANON_BASE {
      var target := TranslateUserPageFlags(hw.mem, root, page - MIRROR_BASE);
      if target.Some? {
        var (phys, writable, exec) := target.value;
        var o := MapPage(hw, root, page, phys, UserFlags(writable, exec));
        return o.Done?;
      }
    }
    if ANON_BASE <= page < ANON_END {
      resolved := FaultPage(hw, root, page);
      return;
    }
    return false;
  }

  method FaultPage(hw: Machine, root: nat, page: nat) returns (resolved: bool)
    requires hw.Valid()
    modifies hw, hw.frames, hw.frames.bits
    ensures hw.Valid() && hw.frames.usable == old(hw.frames.usable)
    ensures (resolved, hw.Now()) == FaultIn(old(hw.Now()), root, page)
  {
    hide X86Space.MapPageIn;
    FrameOfPhys(if hw.frames.free == {} then 0 else Least(hw.frames.free));
    var f := hw.AllocZeroed();
    if f.None? { return false; }
    var o := MapPage(hw, root, page, f.value * FRAME_SIZE, UserFlags(true, true));
    if o.Done? { return true; }
    hw.frames.Free(f.value * FRAME_SIZE);
    return false;
  }

  method UnmapUserRange(hw: Machine, root: nat, start: nat, size: nat, ghost own: Tree, ghost stock: FreeSet,
                        ghost m0: Mem, ghost kernel: nat)
    requires hw.Valid() && Living(hw.Now(), own, root, stock) && stock <= hw.frames.usable
    requires Intact(m0, kernel, hw.mem, root, stock) && HarmlessOp(m0, kernel, Unmap(start, size), stock)
    modifies hw, hw.frames, hw.frames.bits
    ensures hw.Valid() && hw.frames.usable == old(hw.frames.usable)
    ensures hw.Now() == UnmapRange(old(hw.Now()), root, start, size)
  {
    hide Living, UnmapPage, UnmapOne, Intact, Harmless, LowerHalf;
    if root == 0 || root >= LIMIT || size == 0 { return; }
    var v, end := FirstPage(start), EndPage(start, size);
    ghost var first, own' := v, own;
    while v < end
      invariant v % 4096 == 0 && hw.Valid() && hw.frames.usable == old(hw.frames.usable)
      invariant Living(hw.Now(), own', root, stock) && Intact(m0, kernel, hw.mem, root, stock)
      invariant HarmlessPages(m0, kernel, v, end, stock)
      invariant UnmapPages(old(hw.Now()), root, first, end) == UnmapPages(hw.Now(), root, v, end)
    {
      own' := UnmapNext(hw, root, v, own', stock, m0, kernel);
      v := v + 4096;
    }
  }

  method UnmapNext(hw: Machine, root: nat, v: nat, ghost own: Tree, ghost stock: FreeSet, ghost m0: Mem, ghost kernel: nat)
    returns (ghost own': Tree)
    requires hw.Valid() && Living(hw.Now(), own, root, stock) && stock <= hw.frames.usable
    requires Intact(m0, kernel, hw.mem, root, stock) && Harmless(m0, kernel, v, stock)
    modifies hw, hw.frames, hw.frames.bits
    ensures hw.Valid() && hw.frames.usable == old(hw.frames.usable)
    ensures UnmapOne(old(hw.Now()), root, v) == Some(hw.Now())
    ensures Living(hw.Now(), own', root, stock) && Intact(m0, kernel, hw.mem, root, stock)
  {
    hide UnmapPage, UnmapOne, Living, IsTree, Intact, Apart, LeafTable, LowerHalf;
    ghost var s := hw.Now();
    LivingSpace(s, own, root, stock);
    own' := UnmapOneKeeps(s, own, root, v, stock, m0, kernel);
    UnmapOneFrees(s, own, root, v, stock, m0, kernel);
    var o := UnmapUserPage(hw, root, v);
    if o.Done? {
      FrameOfPhys(o.value / 4096);
      hw.frames.Free(o.value);
    }
  }

  /** What unmapping a page without harm comes to: nothing, or one frame of the space freed. */
  ghost predicate FreesOwn(s: State, root: nat, v: nat, stock: FreeSet) {
    var (o, m') := UnmapPage(s.mem, root, v);
    match o
    case Panicked => false
    case Failed => m' == s.mem && UnmapOne(s, root, v) == Some(s)
    case Done(phys) =>
      && phys / 4096 * 4096 == phys && phys / 4096 in stock && phys / 4096 !in s.free
      && UnmapOne(s, root, v) == Some(FreeFrame(s.(mem := m'), phys / 4096))
  }

  lemma UserFrees(s: State, own: Tree, root: nat, v: nat, stock: FreeSet)
    requires Living(s, own, root, stock) && LowerHalf(v)
    ensures FreesOwn(s, root, v, stock)
  {
    hide Living, IsTree, LowerHalf, UnmapPage, UnmapOne, FreeFrame, LeafWritten;
    LivingSpace(s, own, root, stock);
    UnmapOneShape(s, own, root, v);
  }

  lemma UnmapOneFrees(s: State, own: Tree, root: nat, v: nat, stock: FreeSet, m0: Mem, kernel: nat)
    requires Living(s, own, root, stock) && Intact(m0, kernel, s.mem, root, stock) && Harmless(m0, kernel, v, stock)
    ensures FreesOwn(s, root, v, stock)
  {
    hide Living, Intact, Apart, LowerHalf, LeafTable, FreeFrame;
    if LowerHalf(v) {
      UserFrees(s, own, root, v, stock);
    } else {
      ApartWalksAlike(m0, kernel, s.mem, root, v, stock);
    }
  }

  /** Frees what hangs below the entries of a table; level 0 is the PML4. */
  method FreeEntries(hw: Machine, t: nat, level: nat) returns (ghost frees: nat)
    requires hw.Valid() && level <= 3 && t < LIMIT
    requires FreedEntries(hw.mem, t, level, LevelWidth(level)) <= hw.frames.usable
    modifies hw.frames, hw.frames.bits
    ensures hw.Valid() && hw.frames.usable == old(hw.frames.usable)
    ensures hw.frames.free == old(hw.frames.free) + FreedEntries(hw.mem, t, level, LevelWidth(level))
    ensures frees == TableFrees(hw.mem, t, level, LevelWidth(level))
    decreases 4 - level, 1
  {
    var n := LevelWidth(level);
    frees := 0;
    for i := 0 to n
      invariant hw.Valid() && hw.frames.usable == old(hw.frames.usable)
      invariant hw.frames.free == old(hw.frames.free) + FreedEntries(hw.mem, t, level, i)
      invariant frees == TableFrees(hw.mem, t, level, i)
    {
      FreedPrefix(hw.mem, t, level, i + 1, n);
      ghost var more := FreeEntry(hw, hw.mem[t][i], level);
      frees := frees + more;
    }
  }

  method FreeEntry(hw: Machine, e: nat, level: nat) returns (ghost frees: nat)
    requires hw.Valid() && level <= 3 && FreedEntry(hw.mem, e, level) <= hw.frames.usable
    modifies hw.frames, hw.frames.bits
    ensures hw.Valid() && hw.frames.usable == old(hw.frames.usable)
    ensures hw.frames.free == old(hw.frames.free) + FreedEntry(hw.mem, e, level)
    ensures frees == EntryFrees(hw.mem, e, level)
    decreases 4 - level, 0
  {
    hide FrameNo, Huge, Present, FreedEntries, TableFrees;
    frees := 0;
    var f := FrameNo(e);
    if Present(e) && (level == 3 || (level > 0 && Huge(e))) {
      GiveBack(hw, f);
      frees := 1;
    } else if Present(e) && 0 < f < LIMIT {
      frees := FreeEntries(hw, f, level + 1);
      GiveBack(hw, f);
      frees := frees + 1;
    }
  }

  method GiveBack(hw: Machine, f: nat)
    requires hw.Valid() && f in hw.frames.usable
    modifies hw.frames, hw.frames.bits
    ensures hw.Valid() && hw.frames.usable == old(hw.frames.usable)
    ensures hw.frames.free == old(hw.frames.free) + {f}
  {
    FrameOfPhys(f);
    hw.frames.Free(f * FRAME_SIZE);
  }

  method FreeUserPml4(hw: Machine, root: nat, ghost own: Tree, ghost stock: FreeSet) returns (ghost frees: nat)
    requires hw.Valid() && Living(hw.Now(), own, root, stock) && stock <= hw.frames.usable
    modifies hw.frames, hw.frames.bits
    ensures hw.Valid() && hw.frames.usable == old(hw.frames.usable)
    ensures hw.frames.free == old(hw.frames.free) + FreedSpace(hw.mem, root) == stock
    ensures frees == |FreedSpace(hw.mem, root)|
  {
    hide FreedEntries, TableFrees, Linked, AnonOnly, Open;
    frees := 0;
    TeardownFreesAll(hw.mem, own);
    if root == 0 || root >= LIMIT { return; }
    frees := FreeEntries(hw, root, 0);
    GiveBack(hw, root);
    frees := frees + 1;
  }

  /** The life of an address space on the real bitmap: after creation, any run of faults
      and of range unmappings that unmap no page of the kernel's, and teardown, every word of the bitmap and the `used` counter
      are what they were. */
  method AddressSpaceLife(hw: Machine, kernelRoot: nat, ops: seq<Op>)
    requires hw.Valid() && kernelRoot < LIMIT && kernelRoot !in hw.frames.free
    requires forall op :: op in ops ==> HarmlessOp(hw.mem, kernelRoot, op, hw.frames.free)
    modifies hw, hw.frames, hw.frames.bits
    ensures hw.Valid() && hw.frames.free == old(hw.frames.free)
    ensures hw.frames.bits[..] == old(hw.frames.bits[..])
    ensures hw.frames.used == old(hw.frames.used) && hw.frames.total == old(hw.frames.total)
  {
    hide Demand, UnmapRange, AllocRoot, Living, HarmlessOp, SameExcept;
    ghost var stock: FreeSet := hw.frames.free;
    ghost var s := hw.Now();
    hw.frames.WordsShowFree();
    ghost var words := hw.frames.bits[..];
    var r := AllocUserPml4(hw, kernelRoot);
    if r.Some? {
      NewSpaceLives(s, kernelRoot);
      NewSpaceIntact(s, kernelRoot);
      ghost var own := RunOps(hw, r.value, ops, map[Root := r.value], stock, s.mem, kernelRoot);
      ghost var _ := FreeUserPml4(hw, r.value, own, stock);
    }
    hw.frames.WordsShowFree();
    SameFreeSameWords(words, hw.frames.bits[..], hw.frames.free);
  }

  lemma NewSpaceIntact(s: State, kernelRoot: nat)
    requires s.free != {} && kernelRoot < LIMIT && kernelRoot !in s.free
    ensures var (r, s') := AllocRoot(s, kernelRoot);
            r.Some? && Intact(s.mem, kernelRoot, s'.mem, r.value, s.free)
  {
    NewSpaceLives(s, kernelRoot);
  }

  method RunOps(hw: Machine, root: nat, ops: seq<Op>, ghost own: Tree, ghost stock: FreeSet, ghost m0: Mem, ghost kernel: nat)
    returns (ghost own': Tree)
    requires hw.Valid() && Living(hw.Now(), own, root, stock) && stock <= hw.frames.usable
    requires Intact(m0, kernel, hw.mem, root, stock)
    requires forall op :: op in ops ==> HarmlessOp(m0, kernel, op, stock)
    modifies hw, hw.frames, hw.frames.bits
    ensures hw.Valid() && hw.frames.usable == old(hw.frames.usable)
    ensures Living(hw.Now(), own', root, stock)
  {
    hide Demand, UnmapRange, Living, Intact, HarmlessOp;
    own' := own;
    for k := 0 to |ops|
      invariant hw.Valid() && hw.frames.usable == old(hw.frames.usable)
      invariant Living(hw.Now(), own', root, stock) && Intact(m0, kernel, hw.mem, root, stock)
    {
      ghost var next := ApplyKeeps(hw.Now(), root, ops[k], own', stock, m0, kernel);
      match ops[k] {
        case Fault(cr2, error) => var b := DemandPage(hw, root, cr2, error);
        case Unmap(start, size) => UnmapUserRange(hw, root, start, size, own', stock, m0, kernel);
      }
      own' := next;
    }
  }

  lemma {:induction false} FreedPrefix(m: Mem, t: nat, level: nat, n: nat, k: nat)
    requires level <= 3 && t < LIMIT && n <= k <= ENTRIES
    ensures FreedEntries(m, t, level, n) <= FreedEntries(m, t, level, k)
    decreases k
  {
    if n < k { FreedPrefix(m, t, level, n, k - 1); }
  }
}
