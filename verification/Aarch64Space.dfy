/** What the aarch64 `map_page_in` and its neighbours do to memory and the free frames, and
    what they keep. A root starts as a copy of the kernel's level-1 table, whose entries are
    1 GiB blocks or empty; blocks in the way of a 4 KiB page are split. */
module Aarch64Space {

  import opened Options
  import opened PhysMemory
  import opened Aarch64Walk

  // ── The operations ─────────────────────────────────────────────────────────

  function SubTable(d: nat, size: nat): (t: Table)
    ensures forall i :: 0 <= i < ENTRIES ==> t[i] == SubDesc(d, i, size)
  {
    seq(ENTRIES, i requires 0 <= i => SubDesc(d, i, size))
  }

  /** The child table an entry is given: the pieces of its block, or empty. */
  function ChildTable(d: nat, size: nat): Table {
    if IsValid(d) then SubTable(d, size) else ZeroTable()
  }

  /** `ensure_table`: the child table of an entry, made by splitting a block or from nothing
      if there is none; `size` is the size of the child's pieces. */
  ghost function EnsureTable(s: State, t: nat, i: nat, size: nat): (Outcome<nat>, State)
    requires i < ENTRIES
  {
    if t >= LIMIT then (Panicked, s)
    else
      var d := s.mem[t][i];
      if IsValid(d) && TableBit(d) then (Done(OutFrame(d)), s)
      else if s.free == {} then (Failed, s)
      else
        var f := Least(s.free);
        (Done(f), State(Write(s.mem[f := ChildTable(d, size)], t, i, TableDesc(f)), s.free - {f}))
  }

  /** A descriptor by its fields around AP, the address and UXN. */
  lemma BitsFit(d: nat)
    ensures d == d % 0x40 + 0x40 * (d / 0x40 % 4) + 0x100 * (d / 0x100 % (UXN_BIT / 0x100))
                 + UXN_BIT * (d / UXN_BIT % 2) + 2 * UXN_BIT * (d / UXN_BIT / 2)
  {
    var a := d / 0x40;
    var b := a / 4;
    var c := b / (UXN_BIT / 0x100);
    assert d == 0x40 * a + d % 0x40 && a == 4 * b + a % 4;
    assert b == (UXN_BIT / 0x100) * c + b % (UXN_BIT / 0x100);
    assert d / 0x100 == b && d / UXN_BIT == c && c == 2 * (c / 2) + c % 2;
  }

  const UXN_BIT: nat := 0x40_0000_0000_0000

  datatype PageRights = PageRights(writable: bool, user: bool, noExecute: bool)

  /** The descriptor of a user page: inner shareable, accessed, never executable at EL1. */
  function PageDesc(phys: nat, r: PageRights): nat {
    OutAddr(phys) + LowAttr(r) + 0x20_0000_0000_0000 + (if r.noExecute || !r.user then UXN_BIT else 0)
  }

  /** VALID, bit 1, AF, inner shareable, and AP for read-write or read-only. */
  function LowAttr(r: PageRights): nat {
    3 + 0x400 + 0x300 + if r.writable then 0x40 else 0xC0
  }

  /** Both table levels of an address; the result is the level-3 table. */
  ghost function EnsureBoth(s: State, root: nat, virt: nat): (Outcome<nat>, State) {
    match EnsureTable(s, root, I1(virt), MIB2)
    case (Done(l2), s1) => EnsureTable(s1, l2, I2(virt), PAGE)
    case bad => bad
  }

  /** `map_page_in` with the level-3 descriptor already built. */
  ghost function MapPage(s: State, root: nat, virt: nat, d: nat): (Outcome<()>, State) {
    match EnsureBoth(s, root, virt)
    case (Done(l3), s2) =>
      if l3 < LIMIT then (Done(()), s2.(mem := Write(s2.mem, l3, I3(virt), d))) else (Panicked, s2)
    case (Failed, s2) => (Failed, s2)
    case (Panicked, s2) => (Panicked, s2)
  }

  /** The code's own walk: the level-3 table and descriptor, when there is a valid one. */
  function Walk(m: Mem, root: nat, virt: nat): Option<(nat, nat)> {
    if root >= LIMIT then None
    else
      var l1d := m[root][I1(virt)];
      if !IsValid(l1d) || !TableBit(l1d) || OutFrame(l1d) >= LIMIT then None
      else
        var l2d := m[OutFrame(l1d)][I2(virt)];
        if !IsValid(l2d) || !TableBit(l2d) || OutFrame(l2d) >= LIMIT then None
        else
          var d := m[OutFrame(l2d)][I3(virt)];
          if IsValid(d) then Some((OutFrame(l2d), d)) else None
  }

  function TranslateUserPage(m: Mem, root: nat, virt: nat): Option<nat> {
    match Walk(m, root, virt)
    case None => None
    case Some((_, d)) => Some(OutAddr(d) + virt % PAGE)
  }

  /** What the code reports of a page: address, writable (bit 6 set), executable. */
  function TranslateFlags(m: Mem, root: nat, virt: nat): Option<(nat, bool, bool)> {
    match Walk(m, root, virt)
    case None => None
    case Some((_, d)) => Some((OutAddr(d), d / 0x40 % 2 == 1, d / UXN_BIT % 2 == 0))
  }

  function UnmapUserPage(m: Mem, root: nat, virt: nat): (Option<nat>, Mem) {
    match Walk(m, root, virt)
    case None => (None, m)
    case Some((l3, d)) => if l3 < LIMIT then (Some(OutAddr(d)), Write(m, l3, I3(virt), 0)) else (None, m)
  }

  /** The descriptor with new AP and UXN bits: `d & !(AP_RO_ALL | UXN)` and the new ones. */
  function WithRights(d: nat, writable: bool, exec: bool): nat {
    BitsFit(d);
    d - d / 0x40 % 4 * 0x40 - d / UXN_BIT % 2 * UXN_BIT
    + (if writable then 0x40 else 0xC0) + (if exec then 0 else UXN_BIT)
  }

  function UpdateFlags(m: Mem, root: nat, virt: nat, writable: bool, exec: bool): (bool, Mem) {
    match Walk(m, root, virt)
    case None => (false, m)
    case Some((l3, d)) =>
      if l3 < LIMIT then (true, Write(m, l3, I3(virt), WithRights(d, writable, exec))) else (false, m)
  }

  // ── The tables of a root ───────────────────────────────────────────────────

  ghost predicate Nodes(own: Tree) {
    && Root in own
    && (forall q :: q in own ==> Depth(q) <= 2 && own[q] < LIMIT)
    && (forall q :: q in own && q.Child? ==> q.parent in own && q.index < ENTRIES)
    && (forall p, q :: p in own && q in own && own[p] == own[q] ==> p == q)
  }

  function BlockSize(p: Path): nat {
    if p.Root? then GIB else MIB2
  }

  /** A table descriptor names the child in the tree; a block is aligned. */
  ghost predicate Linked(m: Mem, own: Tree, p: Path, i: nat)
    requires p in own && own[p] < LIMIT && i < ENTRIES
  {
    var d := m[own[p]][i];
    && (IsValid(d) && TableBit(d) <==> Child(p, i) in own)
    && (Child(p, i) in own ==> OutFrame(d) == own[Child(p, i)])
    && (IsValid(d) && !TableBit(d) ==> AlignedBlock(d, BlockSize(p)))
  }

  ghost predicate IsTree(m: Mem, own: Tree) {
    && Nodes(own)
    && (forall p, i: nat :: p in own && Depth(p) <= 1 && i < ENTRIES ==> Linked(m, own, p, i))
  }

  ghost predicate Space(s: State, own: Tree) {
    IsTree(s.mem, own) && own.Values !! s.free
  }

  /** A level-1 table of aligned blocks and empty entries, as the kernel's is. */
  ghost predicate BlocksOnly(t: Table) {
    forall i :: 0 <= i < ENTRIES ==> !(IsValid(t[i]) && TableBit(t[i])) && (IsValid(t[i]) ==> AlignedBlock(t[i], GIB))
  }

  /** A fresh root: a copy of a kernel table of aligned blocks and empty entries. */
  lemma FreshRoot(m: Mem, root: nat)
    requires root < LIMIT
    requires BlocksOnly(m[root])
    ensures IsTree(m, map[Root := root])
  {
  }

  function P1(va: nat): Path { Child(Root, I1(va)) }

  function P2(va: nat): Path { Child(P1(va), I2(va)) }

  lemma PathDepths(va: nat)
    ensures Depth(P1(va)) == 1 && Depth(P2(va)) == 2
  {
  }

  /** The translation by the deepest table of the address. */
  ghost function HwAt(m: Mem, own: Tree, va: nat): Option<Translation>
    requires Nodes(own)
  {
    if P2(va) in own then PageAt(m[own[P2(va)]][I3(va)], va)
    else if P1(va) in own then BlockAt(m[own[P1(va)]][I2(va)], MIB2, va)
    else BlockAt(m[own[Root]][I1(va)], GIB, va)
  }

  lemma HwOnTree(m: Mem, own: Tree, va: nat)
    requires IsTree(m, own)
    ensures Hw(m, own[Root], va) == HwAt(m, own, va)
  {
    hide IsValid, TableBit, OutFrame, PageAt, BlockAt;
    PathDepths(va);
    assert Linked(m, own, Root, I1(va));
    if P1(va) in own {
      assert Linked(m, own, P1(va), I2(va));
    }
  }

  // ── One level ──────────────────────────────────────────────────────────────

  ghost predicate SameHw(m: Mem, m': Mem, own: Tree, own': Tree)
    requires Nodes(own) && Nodes(own')
  {
    forall va: nat :: va < VA_SPAN ==> HwAt(m', own', va) == HwAt(m, own, va)
  }

  lemma NewNodes(own: Tree, p: Path, i: nat, f: nat)
    requires Nodes(own) && p in own && Depth(p) <= 1 && i < ENTRIES
    requires Child(p, i) !in own && f < LIMIT && f !in own.Values
    ensures Nodes(own[Child(p, i) := f])
  {
  }

  /** Pieces of an aligned block are aligned blocks; an empty table has none. */
  lemma ChildEntry(d: nat, j: nat)
    requires !(IsValid(d) && TableBit(d)) && (IsValid(d) ==> AlignedBlock(d, GIB)) && j < ENTRIES
    ensures var e := ChildTable(d, MIB2)[j];
            !(IsValid(e) && TableBit(e)) && (IsValid(e) ==> AlignedBlock(e, MIB2))
  {
    if IsValid(d) {
      SubFields(d, j, MIB2);
      SplitSum(OutAddr(d), j, MIB2, GIB);
    }
  }

  /** A table was hung on one entry: its contents are new, every other word is kept. */
  ghost predicate Hung(m: Mem, m': Mem, own: Tree, p: Path, i: nat, f: nat) {
    && p in own && Depth(p) <= 1 && i < ENTRIES && own[p] < LIMIT
    && Child(p, i) !in own && f < LIMIT && f !in own.Values
    && m' == Write(m[f := ChildTable(m[own[p]][i], if p.Root? then MIB2 else PAGE)], own[p], i, TableDesc(f))
  }

  lemma HungReads(m: Mem, m': Mem, own: Tree, p: Path, i: nat, f: nat, q: Path, j: nat)
    requires Nodes(own) && Hung(m, m', own, p, i, f) && q in own && j < ENTRIES && !(q == p && j == i)
    ensures m'[own[q]][j] == m[own[q]][j]
  {
    hide ChildTable, TableDesc;
    assert own[q] in own.Values && own[p] in own.Values;
  }

  lemma HungChild(m: Mem, m': Mem, own: Tree, p: Path, i: nat, f: nat)
    requires Hung(m, m', own, p, i, f)
    ensures m'[f] == ChildTable(m[own[p]][i], if p.Root? then MIB2 else PAGE)
    ensures p in own && Depth(p) <= 1 && i < ENTRIES && Child(p, i) !in own
  {
    hide ChildTable, TableDesc;
    assert own[p] in own.Values;
  }

  lemma SplitRoot(d: nat, va: nat)
    requires !(IsValid(d) && TableBit(d)) && (IsValid(d) ==> AlignedBlock(d, GIB))
    ensures BlockAt(ChildTable(d, MIB2)[I2(va)], MIB2, va) == BlockAt(d, GIB, va)
  {
    hide SubDesc, Attr, OutAddr, I2;
    if IsValid(d) { SplitGib(d, va); }
  }

  lemma SplitLeaf(d: nat, va: nat)
    requires !(IsValid(d) && TableBit(d)) && (IsValid(d) ==> AlignedBlock(d, MIB2))
    ensures PageAt(ChildTable(d, PAGE)[I3(va)], va) == BlockAt(d, MIB2, va)
  {
    hide SubDesc, Attr, OutAddr, I3;
    if IsValid(d) { SplitMib(d, va); }
  }

  /** Splitting a block, or filling an empty entry with an empty table, moves no hardware
      translation anywhere. */
  lemma NewTableHw(m: Mem, m': Mem, own: Tree, p: Path, i: nat, f: nat, va: nat)
    requires IsTree(m, own) && Hung(m, m', own, p, i, f) && Nodes(own[Child(p, i) := f])
    ensures HwAt(m', own[Child(p, i) := f], va) == HwAt(m, own, va)
  {
    hide IsTree, Hung, Linked, IsValid, PageAt, BlockAt, ChildTable, AlignedBlock, I1, I2, I3;
    var own' := own[Child(p, i) := f];
    HungChild(m, m', own, p, i, f);
    TreeEntry(m, own, p, i);
    PathDepths(va);
    if P1(va) == Child(p, i) {
      SplitRoot(m[own[p]][i], va);
      assert P2(va) !in own;
    } else if P2(va) == Child(p, i) {
      SplitLeaf(m[own[p]][i], va);
    } else if P2(va) in own {
      HungReads(m, m', own, p, i, f, P2(va), I3(va));
    } else if P1(va) in own {
      HungReads(m, m', own, p, i, f, P1(va), I2(va));
    } else {
      HungReads(m, m', own, p, i, f, Root, I1(va));
    }
  }

  lemma NewTree(m: Mem, m': Mem, own: Tree, p: Path, i: nat, f: nat)
    requires IsTree(m, own) && Hung(m, m', own, p, i, f)
    ensures IsTree(m', own[Child(p, i) := f])
  {
    hide IsValid, TableBit, OutFrame, AlignedBlock, ChildTable, TableDesc;
    var own' := own[Child(p, i) := f];
    NewNodes(own, p, i, f);
    TableDescFields(f);
    TreeEntry(m, own, p, i);
    HungChild(m, m', own, p, i, f);
    forall q, j: nat | q in own' && Depth(q) <= 1 && j < ENTRIES ensures Linked(m', own', q, j) {
      if q == Child(p, i) {
        assert p == Root && Child(q, j) !in own;
        ChildEntry(m[own[p]][i], j);
      } else if q != p || j != i {
        assert Linked(m, own, q, j);
        HungReads(m, m', own, p, i, f, q, j);
      }
    }
  }

  lemma TreeEntry(m: Mem, own: Tree, p: Path, i: nat)
    requires IsTree(m, own) && p in own && Depth(p) <= 1 && i < ENTRIES
    ensures Nodes(own) && Linked(m, own, p, i)
    ensures var d := m[own[p]][i];
            Child(p, i) !in own ==>
              !(IsValid(d) && TableBit(d)) && (IsValid(d) ==> AlignedBlock(d, BlockSize(p)))
  {
  }

  /** `ensure_table` on a tree: no panic, the child is there unless the frames ran out, the
      tree stays well formed, and no hardware translation moves. */
  ghost predicate EnsureKept(s: State, t: nat, i: nat, size: nat, own: Tree, own': Tree, p: Path)
    requires i < ENTRIES
  {
    var (o, s') := EnsureTable(s, t, i, size);
    && !o.Panicked? && Space(s', own') && Nodes(own) && Root in own && own'[Root] == own[Root]
    && (o.Done? ==> Child(p, i) in own' && own'[Child(p, i)] == o.value)
    && (o.Failed? ==> s' == s && own' == own && s.free == {})
    && (forall q :: q in own ==> q in own' && own'[q] == own[q])
    && SameExcept(s.mem, s'.mem, own'.Values) && own'.Values <= own.Values + s.free
    && SameHw(s.mem, s'.mem, own, own')
  }

  lemma HungEnsures(s: State, s': State, own: Tree, p: Path, i: nat, f: nat)
    requires Space(s, own) && f in s.free && s'.free == s.free - {f} && Hung(s.mem, s'.mem, own, p, i, f)
    ensures var own' := own[Child(p, i) := f];
            && Space(s', own') && SameHw(s.mem, s'.mem, own, own')
            && own'.Values == own.Values + {f} && SameExcept(s.mem, s'.mem, own'.Values)
  {
    hide IsTree, HwAt, ChildTable, TableDesc;
    var own' := own[Child(p, i) := f];
    NewTree(s.mem, s'.mem, own, p, i, f);
    TreeNodes(s.mem, own);
    TreeNodes(s'.mem, own');
    NewValues(own, Child(p, i), f);
    assert own[p] in own.Values;
    forall va: nat | va < VA_SPAN ensures HwAt(s'.mem, own', va) == HwAt(s.mem, own, va) {
      NewTableHw(s.mem, s'.mem, own, p, i, f, va);
    }
  }

  lemma TreeNodes(m: Mem, own: Tree)
    requires IsTree(m, own)
    ensures Nodes(own)
  {
  }

  lemma NewValues(own: Tree, q: Path, f: nat)
    requires q !in own
    ensures own[q := f].Values == own.Values + {f}
  {
    var own' := own[q := f];
    assert own'[q] == f;
    forall g | g in own.Values ensures g in own'.Values {
      var r :| r in own && own[r] == g;
      assert own'[r] == g;
    }
  }

  /** What a level does is nothing, or hanging a table. */
  lemma EnsureShape(s: State, t: nat, i: nat, own: Tree, p: Path)
    requires Space(s, own) && p in own && own[p] == t && Depth(p) <= 1 && i < ENTRIES
    ensures var (o, s') := EnsureTable(s, t, i, if p.Root? then MIB2 else PAGE);
            if Child(p, i) in own then o == Done(own[Child(p, i)]) && s' == s
            else if s.free == {} then o == Failed && s' == s
            else
              var f := Least(s.free);
              o == Done(f) && s'.free == s.free - {f} && Hung(s.mem, s'.mem, own, p, i, f)
  {
    hide ChildTable, TableDesc, IsValid, TableBit, OutFrame, AlignedBlock;
    TreeEntry(s.mem, own, p, i);
  }

  lemma SameRefl(m: Mem, own: Tree)
    requires Nodes(own)
    ensures SameHw(m, m, own, own) && SameExcept(m, m, own.Values)
  {
    hide HwAt;
  }

  lemma EnsureOnTree(s: State, t: nat, i: nat, own: Tree, p: Path) returns (own': Tree)
    requires Space(s, own) && p in own && own[p] == t && Depth(p) <= 1 && i < ENTRIES
    ensures EnsureKept(s, t, i, if p.Root? then MIB2 else PAGE, own, own', p)
  {
    hide IsTree, SameHw, SameExcept, EnsureTable, Hung;
    TreeNodes(s.mem, own);
    EnsureShape(s, t, i, own, p);
    SameRefl(s.mem, own);
    own' := own;
    if Child(p, i) !in own && s.free != {} {
      var f := Least(s.free);
      own' := own[Child(p, i) := f];
      HungEnsures(s, EnsureTable(s, t, i, if p.Root? then MIB2 else PAGE).1, own, p, i, f);
    }
  }

  // ── The page ───────────────────────────────────────────────────────────────

  /** Writing one level-3 descriptor changes the translation of one page. */
  lemma LeafWrite(m: Mem, m': Mem, own: Tree, virt: nat, d: nat, va: nat)
    requires IsTree(m, own) && P2(virt) in own && virt < VA_SPAN && va < VA_SPAN
    requires m' == Write(m, own[P2(virt)], I3(virt), d)
    ensures IsTree(m', own)
    ensures HwAt(m', own, va) == if va / PAGE == virt / PAGE then PageAt(d, va) else HwAt(m, own, va)
  {
    hide PageAt, BlockAt, IsValid, TableBit, OutFrame, AlignedBlock;
    PathDepths(virt);
    PathDepths(va);
    SamePage(va, virt);
    forall p, i: nat | p in own && Depth(p) <= 1 && i < ENTRIES ensures Linked(m', own, p, i) {
      assert Linked(m, own, p, i);
      assert own[p] != own[P2(virt)];
    }
    if P2(va) in own && P2(va) != P2(virt) {
      assert own[P2(va)] != own[P2(virt)];
    }
  }

  lemma PageDescFields(phys: nat, r: PageRights)
    ensures var d := PageDesc(phys, r);
            && IsValid(d) && TableBit(d) && OutFrame(d) == OutFrame(phys)
            && d / 0x40 % 2 == 1 && (d / 0x80 % 2 == 1) == !r.writable
            && (d / UXN_BIT % 2 == 1) == (r.noExecute || !r.user)
  {
    var f, low := OutFrame(phys), LowAttr(r);
    var hi := 0x20 + if r.noExecute || !r.user then 0x40 else 0;
    assert PageDesc(phys, r) == (hi * FRAME_SPAN + f) * PAGE + low;
    SumHigh(hi, f, low);
    DescLow(hi * FRAME_SPAN + f, low);
    DescHigh(hi, f, low);
  }

  lemma DescLow(n: nat, low: nat)
    requires low < PAGE
    ensures var d := n * PAGE + low;
            d / 0x40 % 2 == low / 0x40 % 2 && d / 0x80 % 2 == low / 0x80 % 2
  {
    var a, b := low / 0x40, low / 0x80;
    assert n * PAGE + low == 0x40 * (n * 0x40 + a) + low % 0x40;
    assert n * PAGE + low == 0x80 * (n * 0x20 + b) + low % 0x80;
    assert (n * PAGE + low) / 0x40 == n * 0x40 + a;
    assert (n * PAGE + low) / 0x80 == n * 0x20 + b;
  }

  lemma DescHigh(hi: nat, f: nat, low: nat)
    requires f < FRAME_SPAN && low < PAGE && 0x20 <= hi < 0x80
    ensures ((hi * FRAME_SPAN + f) * PAGE + low) / UXN_BIT == hi / 0x40
  {
  }

  /** Every address translates as before, except that a hit page now goes to `d`. */
  ghost predicate HwBut(m: Mem, m': Mem, root: nat, virt: nat, hit: bool, d: nat) {
    forall va: nat :: va < VA_SPAN ==>
      Hw(m', root, va) == (if hit && va / PAGE == virt / PAGE then PageAt(d, va) else Hw(m, root, va))
  }

  lemma SameHwTrans(m: Mem, m1: Mem, m2: Mem, own: Tree, own1: Tree, own2: Tree)
    requires Nodes(own) && Nodes(own1) && Nodes(own2)
    requires SameHw(m, m1, own, own1) && SameHw(m1, m2, own1, own2)
    ensures SameHw(m, m2, own, own2)
  {
    hide HwAt;
  }

  /** The two table levels of a page, ready for the leaf write. */
  ghost predicate Ready(s: State, own: Tree, virt: nat, o: Outcome<nat>, s2: State, own2: Tree) {
    && !o.Panicked? && Nodes(own) && Space(s2, own2) && own2[Root] == own[Root]
    && (o.Done? ==> P2(virt) in own2 && own2[P2(virt)] == o.value)
    && (o.Failed? ==> s2.free == {})
    && SameExcept(s.mem, s2.mem, own2.Values) && own2.Values <= own.Values + s.free
    && SameHw(s.mem, s2.mem, own, own2)
  }

  lemma BothOnTree(s: State, root: nat, virt: nat, own: Tree) returns (own2: Tree)
    requires Space(s, own) && own[Root] == root
    ensures var (o, s2) := EnsureBoth(s, root, virt);
            Ready(s, own, virt, o, s2, own2)
  {
    hide IsTree, EnsureTable, HwAt, SameHw, SameExcept, I1, I2;
    TreeNodes(s.mem, own);
    PathDepths(virt);
    var (o1, s1) := EnsureTable(s, root, I1(virt), MIB2);
    var own1 := EnsureOnTree(s, root, I1(virt), own, Root);
    own2 := own1;
    if o1.Done? {
      var (o2, s2) := EnsureTable(s1, o1.value, I2(virt), PAGE);
      own2 := EnsureOnTree(s1, o1.value, I2(virt), own1, P1(virt));
      TreeNodes(s1.mem, own1);
      TreeNodes(s2.mem, own2);
      SameHwTrans(s.mem, s1.mem, s2.mem, own, own1, own2);
      ValuesGrow(own1, own2);
      SameExceptTrans(s.mem, s1.mem, s2.mem, own1.Values, own2.Values);
      FreeShrinks(s, root, I1(virt), MIB2);
    }
  }

  lemma FreeShrinks(s: State, t: nat, i: nat, size: nat)
    requires i < ENTRIES
    ensures EnsureTable(s, t, i, size).1.free <= s.free
  {
  }

  lemma SameExceptTrans(m: Mem, m1: Mem, m2: Mem, a: set<nat>, b: set<nat>)
    requires SameExcept(m, m1, a) && SameExcept(m1, m2, b) && a <= b
    ensures SameExcept(m, m2, b)
  {
  }

  lemma ValuesGrow(own1: Tree, own2: Tree)
    requires forall q :: q in own1 ==> q in own2 && own2[q] == own1[q]
    ensures own1.Values <= own2.Values
  {
  }

  /** Mapping a page moves the hardware translation, address and attributes, of that page
      and of no other address; when a table cannot be allocated it moves none. Only frames
      of this root's own tree are written, so the kernel root it was copied from is never
      altered. */
  lemma MapOnTree(s: State, root: nat, virt: nat, d: nat, own: Tree) returns (own': Tree)
    requires Space(s, own) && own[Root] == root && virt < VA_SPAN
    ensures var (o, s') := MapPage(s, root, virt, d);
            && !o.Panicked? && Space(s', own') && own'[Root] == root
            && HwBut(s.mem, s'.mem, root, virt, o.Done?, d)
            && SameExcept(s.mem, s'.mem, own'.Values) && own'.Values <= own.Values + s.free
            && (o.Failed? ==> s'.free == {})
            && (o.Done? ==> P2(virt) in own' && s'.mem[own'[P2(virt)]][I3(virt)] == d)
  {
    hide IsTree, EnsureBoth, HwBut, SameHw, SameExcept;
    own' := BothOnTree(s, root, virt, own);
    var (o, s2) := EnsureBoth(s, root, virt);
    var s' := MapPage(s, root, virt, d).1;
    TreeNodes(s2.mem, own');
    if o.Done? {
      LeafKeeps(s.mem, s2.mem, s'.mem, own, own', virt, d);
    } else {
      HwEqual(s.mem, s2.mem, own, own', virt, d);
    }
  }

  /** A mapping succeeds exactly when there is a frame for each of its tables that is missing,
      whether it is made from a block or from nothing. */
  lemma MapSucceeds(s: State, root: nat, virt: nat, d: nat, own: Tree)
    requires Space(s, own) && own[Root] == root && virt < VA_SPAN
    ensures var p1 := Child(Root, I1(virt));
            var p2 := Child(p1, I2(virt));
            MapPage(s, root, virt, d).0.Done? <==>
            |s.free| >= (if p1 in own then 0 else 1) + (if p2 in own then 0 else 1)
  {
    hide IsTree, EnsureBoth, HwBut, SameHw, SameExcept;
    var own' := MapOnTree(s, root, virt, d, own);
    BothSucceed(s, root, virt, own);
  }

  lemma BothSucceed(s: State, root: nat, virt: nat, own: Tree)
    requires Space(s, own) && own[Root] == root
    ensures EnsureBoth(s, root, virt).0.Done? <==>
            |s.free| >= (if P1(virt) in own then 0 else 1) + (if P2(virt) in own then 0 else 1)
  {
    hide IsTree, EnsureTable, Hung, I1, I2, SameHw, SameExcept;
    TreeNodes(s.mem, own);
    PathDepths(virt);
    EnsureShape(s, root, I1(virt), own, Root);
    var (o, s1) := EnsureTable(s, root, I1(virt), MIB2);
    if P1(virt) in own {
      EnsureShape(s, own[P1(virt)], I2(virt), own, P1(virt));
    } else if s.free != {} {
      var f := Least(s.free);
      var own1 := own[P1(virt) := f];
      HungEnsures(s, s1, own, Root, I1(virt), f);
      TreeNodes(s1.mem, own1);
      EnsureShape(s1, f, I2(virt), own1, P1(virt));
      assert |s1.free| == |s.free| - 1;
    }
  }

  lemma HwEqual(m: Mem, m2: Mem, own: Tree, own2: Tree, virt: nat, d: nat)
    requires IsTree(m, own) && IsTree(m2, own2) && SameHw(m, m2, own, own2) && own2[Root] == own[Root]
    ensures HwBut(m, m2, own[Root], virt, false, d)
  {
    hide IsTree, HwAt, Hw, PageAt;
    TreeNodes(m, own);
    TreeNodes(m2, own2);
    forall va: nat | va < VA_SPAN ensures Hw(m2, own[Root], va) == Hw(m, own[Root], va) {
      HwOnTree(m, own, va);
      HwOnTree(m2, own2, va);
    }
  }

  lemma LeafKeeps(m: Mem, m2: Mem, m': Mem, own: Tree, own2: Tree, virt: nat, d: nat)
    requires IsTree(m, own) && IsTree(m2, own2) && Nodes(own) && Nodes(own2)
    requires SameHw(m, m2, own, own2) && own2[Root] == own[Root] && SameExcept(m, m2, own2.Values)
    requires P2(virt) in own2 && virt < VA_SPAN && m' == Write(m2, own2[P2(virt)], I3(virt), d)
    ensures IsTree(m', own2) && HwBut(m, m', own[Root], virt, true, d)
    ensures SameExcept(m, m', own2.Values)
  {
    hide IsTree, HwAt, Hw, PageAt;
    assert own2[P2(virt)] in own2.Values;
    LeafWrite(m2, m', own2, virt, d, virt);
    forall va: nat | va < VA_SPAN
      ensures Hw(m', own[Root], va) == if va / PAGE == virt / PAGE then PageAt(d, va) else Hw(m, own[Root], va)
    {
      LeafWrite(m2, m', own2, virt, d, va);
      HwOnTree(m, own, va);
      HwOnTree(m', own2, va);
    }
  }

  /** On a tree the code's walk finds exactly the level-3 descriptor of the address. */
  lemma WalkOnTree(m: Mem, root: nat, virt: nat, own: Tree)
    requires IsTree(m, own) && own[Root] == root
    ensures Walk(m, root, virt) ==
            if P2(virt) in own && IsValid(m[own[P2(virt)]][I3(virt)])
            then Some((own[P2(virt)], m[own[P2(virt)]][I3(virt)])) else None
  {
    hide IsValid, TableBit, OutFrame;
    PathDepths(virt);
    assert Linked(m, own, Root, I1(virt));
    if P1(virt) in own {
      assert Linked(m, own, P1(virt), I2(virt));
    }
  }

  /** What was mapped is what is read back: the address and the execute right always, the
      write right only for writable pages, because the code tests bit 6 of AP, which is set
      for read-only pages too. */
  lemma MapReadsBack(s: State, root: nat, virt: nat, phys: nat, r: PageRights, own: Tree)
    requires Space(s, own) && own[Root] == root && virt < VA_SPAN
    requires MapPage(s, root, virt, PageDesc(phys, r)).0.Done?
    ensures var m' := MapPage(s, root, virt, PageDesc(phys, r)).1.mem;
            && TranslateUserPage(m', root, virt) == Some(OutAddr(phys) + virt % PAGE)
            && TranslateFlags(m', root, virt) == Some((OutAddr(phys), true, !(r.noExecute || !r.user)))
            && (TranslateFlags(m', root, virt).value.1 == r.writable <==> r.writable)
  {
    hide IsTree, MapPage, Walk, PageDesc, OutFrame, IsValid, SameExcept, HwBut;
    var own' := MapOnTree(s, root, virt, PageDesc(phys, r), own);
    PageDescFields(phys, r);
    WalkOnTree(MapPage(s, root, virt, PageDesc(phys, r)).1.mem, root, virt, own');
  }

  /** The attribute word of a mapped page, bit by bit: valid; memory type 0, normal memory; user
      access, read-write or read-only; inner shareable; accessed; never executable by the kernel;
      executable by the process as asked. Nothing else is set. */
  ghost predicate PageAttr(attr: nat, r: PageRights) {
    && attr % 4 == 1 && attr / 4 % 8 == 0
    && attr / 0x20 % 2 == 0 && attr / 0x40 % 4 == (if r.writable then 1 else 3)
    && attr / 0x100 % 4 == 3 && attr / 0x400 % 2 == 1
    && attr / 0x800 % 0x400_0000_0000 == 0 && attr / 0x20_0000_0000_0000 % 2 == 1
    && attr / 0x40_0000_0000_0000 == (if r.noExecute || !r.user then 1 else 0)
  }

  lemma AttrFields(r: PageRights, attr: nat)
    requires attr == 0x20_0000_0000_0701 + (if r.writable then 0x40 else 0xC0)
                     + (if r.noExecute || !r.user then 0x40_0000_0000_0000 else 0)
    ensures PageAttr(attr, r)
  {
  }

  lemma PageDescAttr(phys: nat, r: PageRights)
    ensures var d := PageDesc(phys, r);
            PageAttr(Attr(d), r) && OutAddr(d) == phys / 0x1000 % 0x10_0000_0000 * 0x1000 && IsValid(d) && TableBit(d)
  {
    hide PageAttr, OutFrame, IsValid, TableBit;
    PageDescFields(phys, r);
    var d := PageDesc(phys, r);
    assert OutFrame(phys) == phys / 0x1000 % 0x10_0000_0000 by { FrameIs(phys); }
    AttrFields(r, Attr(d));
  }

  lemma FrameIs(d: nat)
    ensures OutFrame(d) == d / 0x1000 % 0x10_0000_0000
  {
  }

  /** What the processor sees of a mapped page: its address, and every attribute. */
  lemma MapGrants(s: State, root: nat, virt: nat, phys: nat, r: PageRights, own: Tree, va: nat)
    requires Space(s, own) && own[Root] == root && virt < VA_SPAN && va < VA_SPAN
    ensures var (o, s') := MapPage(s, root, virt, PageDesc(phys, r));
            var seen := Hw(s'.mem, root, va);
            if o.Done? && va / 0x1000 == virt / 0x1000 then
              && seen.Some? && PageAttr(seen.value.attr, r)
              && seen.value.pa == phys / 0x1000 % 0x10_0000_0000 * 0x1000 + va % 0x1000
            else seen == Hw(s.mem, root, va)
  {
    hide IsTree, MapPage, PageDesc, SameExcept, Hw, PageAttr, OutAddr, Attr, IsValid, TableBit;
    var own' := MapOnTree(s, root, virt, PageDesc(phys, r), own);
    PageDescAttr(phys, r);
  }

  /** Unmapping returns the page's address and removes that translation alone. */
  lemma UnmapOnTree(m: Mem, root: nat, virt: nat, own: Tree)
    requires IsTree(m, own) && own[Root] == root && virt < VA_SPAN
    ensures var (r, m') := UnmapUserPage(m, root, virt);
            match Walk(m, root, virt)
            case None => r == None && m' == m
            case Some((_, d)) =>
              r == Some(OutAddr(d)) && IsTree(m', own) && HwBut(m, m', root, virt, true, 0)
              && SameExcept(m, m', own.Values)
  {
    hide IsTree, HwAt, Hw, PageAt, IsValid;
    TreeNodes(m, own);
    WalkOnTree(m, root, virt, own);
    if Walk(m, root, virt).Some? {
      LeafKeeps(m, m, UnmapUserPage(m, root, virt).1, own, own, virt, 0);
    }
  }

  lemma RightsFields(low: nat, ap: nat, mid: nat, x: nat, top: nat)
    requires low < 0x40 && ap < 4 && mid < UXN_BIT / 0x100 && x < 2
    ensures var d := low + 0x40 * ap + 0x100 * mid + UXN_BIT * x + 2 * UXN_BIT * top;
            && d % 4 == low % 4 && d / 0x40 % 4 == ap && d / UXN_BIT % 2 == x
            && OutFrame(d) == mid / 0x10 % FRAME_SPAN
  {
    var d := low + 0x40 * ap + 0x100 * mid + UXN_BIT * x + 2 * UXN_BIT * top;
    var hi := mid + (UXN_BIT / 0x100) * (x + 2 * top);
    assert d == 0x100 * hi + (low + 0x40 * ap);
    assert d / 0x40 == 4 * hi + ap;
    assert d / 0x1000 == hi / 0x10;
    var k := (UXN_BIT / 0x1000) * (x + 2 * top);
    assert hi / 0x10 == mid / 0x10 + k;
    assert k == 0x40 * (x + 2 * top) * FRAME_SPAN;
    assert (mid / 0x10 + k) % FRAME_SPAN == mid / 0x10 % FRAME_SPAN;
    assert d / UXN_BIT == x + 2 * top;
  }

  /** Everything in a descriptor or attribute word but AP and UXN. */
  function Unrelated(d: nat): int {
    d - d / 0x40 % 4 * 0x40 - d / 0x40_0000_0000_0000 % 2 * 0x40_0000_0000_0000
  }

  /** New rights keep everything else, and are the rights asked for. */
  lemma WithRightsFields(d: nat, writable: bool, exec: bool)
    ensures var n := WithRights(d, writable, exec);
            && OutFrame(n) == OutFrame(d) && n % 4 == d % 4 && Unrelated(n) == Unrelated(d)
            && n / 0x40 % 4 == (if writable then 1 else 3) && n / UXN_BIT % 2 == (if exec then 0 else 1)
  {
    BitsFit(d);
    var low, ap, mid, x, top := d % 0x40, d / 0x40 % 4, d / 0x100 % (UXN_BIT / 0x100), d / UXN_BIT % 2, d / UXN_BIT / 2;
    RightsFields(low, ap, mid, x, top);
    RightsFields(low, if writable then 1 else 3, mid, if exec then 0 else 1, top);
  }

  /** Changing rights rewrites one page's descriptor, at the same address, and moves no
      other translation. */
  lemma UpdateOnTree(m: Mem, root: nat, virt: nat, writable: bool, exec: bool, own: Tree)
    requires IsTree(m, own) && own[Root] == root && virt < VA_SPAN
    ensures var (ok, m') := UpdateFlags(m, root, virt, writable, exec);
            match Walk(m, root, virt)
            case None => !ok && m' == m
            case Some((_, d)) =>
              var n := WithRights(d, writable, exec);
              ok && IsTree(m', own) && HwBut(m, m', root, virt, true, n) && OutAddr(n) == OutAddr(d)
              && SameExcept(m, m', own.Values)
  {
    hide IsTree, HwAt, Hw, PageAt, IsValid, WithRights, OutFrame;
    TreeNodes(m, own);
    WalkOnTree(m, root, virt, own);
    match Walk(m, root, virt)
    case None =>
    case Some((_, d)) =>
      WithRightsFields(d, writable, exec);
      LeafKeeps(m, m, UpdateFlags(m, root, virt, writable, exec).1, own, own, virt, WithRights(d, writable, exec));
  }

  lemma AttrKeepsRights(d: nat)
    ensures Attr(d) / 0x40 % 4 == d / 0x40 % 4 && Attr(d) / UXN_BIT % 2 == d / UXN_BIT % 2
    ensures Unrelated(Attr(d)) == Unrelated(d) - OutAddr(d) - Two(TableBit(d))
  {
    var hi, low := d / ADDR_SPAN, d % PAGE;
    assert d / PAGE == hi * FRAME_SPAN + OutFrame(d);
    assert d == hi * ADDR_SPAN + OutAddr(d) + low;
    var rest := low - Two(TableBit(d));
    LowPart(d / PAGE, low);
    assert Attr(d) == hi * ADDR_SPAN + rest && 0 <= rest;
    LowRights(d / PAGE, low);
    LowRights(hi * FRAME_SPAN, rest);
    RestRights(low);
    HighRights(hi, OutAddr(d) + low);
    HighRights(hi, rest);
  }

  lemma LowRights(n: nat, low: nat)
    requires low < PAGE
    ensures (n * PAGE + low) / 0x40 % 4 == low / 0x40 % 4
  {
    assert (n * PAGE + low) / 0x40 == n * 64 + low / 0x40;
  }

  lemma RestRights(low: nat)
    ensures var rest := low - low / 2 % 2 * 2;
            rest / 0x40 % 4 == low / 0x40 % 4
  {
    var k, l := low / 0x40, low % 0x40;
    assert low == k * 0x40 + l;
    assert low / 2 == k * 0x20 + l / 2;
    var rest := low - low / 2 % 2 * 2;
    assert l >= 2 || low / 2 % 2 == 0;
    assert rest / 0x40 == k;
  }

  lemma HighRights(hi: nat, low: nat)
    requires low < ADDR_SPAN
    ensures (hi * ADDR_SPAN + low) / UXN_BIT % 2 == hi / 0x40 % 2
  {
    assert (hi * ADDR_SPAN + low) / UXN_BIT == hi / 0x40;
  }

  /** A change of rights, as the processor sees it: the same address and attributes but for AP and
      UXN, which are the ones asked for, and no other translation moves. */
  lemma UpdateGrants(m: Mem, root: nat, virt: nat, writable: bool, exec: bool, own: Tree, va: nat)
    requires IsTree(m, own) && own[Root] == root && virt < VA_SPAN && va < VA_SPAN && Walk(m, root, virt).Some?
    ensures var was, now := Hw(m, root, va), Hw(UpdateFlags(m, root, virt, writable, exec).1, root, va);
            if va / 0x1000 == virt / 0x1000 && was.Some? then
              && now.Some? && now.value.pa == was.value.pa
              && now.value.attr / 0x40 % 4 == (if writable then 1 else 3)
              && now.value.attr / 0x40_0000_0000_0000 % 2 == (if exec then 0 else 1)
              && Unrelated(now.value.attr) == Unrelated(was.value.attr)
            else now == was
  {
    hide IsTree, HwAt, Hw, IsValid, TableBit, WithRights, OutFrame, UpdateFlags, Walk, SameExcept, Attr, Unrelated;
    UpdateOnTree(m, root, virt, writable, exec, own);
    var (_, d) := Walk(m, root, virt).value;
    WithRightsFields(d, writable, exec);
    AttrKeepsRights(d);
    AttrKeepsRights(WithRights(d, writable, exec));
    SameLow(d, WithRights(d, writable, exec));
    if va / PAGE == virt / PAGE { WalkSeesPage(m, root, virt, own, va); }
  }

  lemma SameLow(d: nat, n: nat)
    requires d % 4 == n % 4
    ensures IsValid(d) == IsValid(n) && TableBit(d) == TableBit(n)
  {
  }

  lemma WalkSeesPage(m: Mem, root: nat, virt: nat, own: Tree, va: nat)
    requires IsTree(m, own) && own[Root] == root && virt < VA_SPAN && va < VA_SPAN
    requires Walk(m, root, virt).Some? && va / PAGE == virt / PAGE
    ensures Hw(m, root, va) == PageAt(Walk(m, root, virt).value.1, va)
  {
    hide IsTree, Hw, Walk, PageAt, BlockAt, I1, I2, I3;
    SamePage(va, virt);
    TreeNodes(m, own);
    WalkOnTree(m, root, virt, own);
    HwOnTree(m, own, va);
  }

  // ── Runs beside the kernel root ────────────────────────────────────────────

  datatype RootOp =
    | Map(virt: nat, phys: nat, rights: PageRights)
    | Update(virt: nat, writable: bool, exec: bool)
    | Unmap(virt: nat)

  ghost function RootStep(s: State, root: nat, op: RootOp): State {
    match op
    case Map(virt, phys, rights) => MapPage(s, root, virt, PageDesc(phys, rights)).1
    case Update(virt, writable, exec) => s.(mem := UpdateFlags(s.mem, root, virt, writable, exec).1)
    case Unmap(virt) => s.(mem := UnmapUserPage(s.mem, root, virt).1)
  }

  ghost function RootRun(s: State, root: nat, ops: seq<RootOp>): State {
    if ops == [] then s else RootStep(RootRun(s, root, ops[..|ops| - 1]), root, ops[|ops| - 1])
  }

  /** The indices look at an address only within the span. */
  lemma IndicesWrap(virt: nat)
    ensures I1(virt % VA_SPAN) == I1(virt) && I2(virt % VA_SPAN) == I2(virt) && I3(virt % VA_SPAN) == I3(virt)
  {
    var k, v := virt / VA_SPAN, virt % VA_SPAN;
    assert virt == k * VA_SPAN + v;
    assert virt / GIB == k * 512 + v / GIB;
    assert virt / MIB2 == k * 512 * 512 + v / MIB2;
    assert virt / PAGE == k * 512 * 512 * 512 + v / PAGE;
    WrapsAway(k, v / GIB);
    WrapsAway(k * 512, v / MIB2);
    WrapsAway(k * 512 * 512, v / PAGE);
  }

  lemma WrapsAway(k: nat, n: nat)
    ensures (k * 512 + n) % 512 == n % 512
  {
  }

  /** A step depends on its address only within the span. */
  lemma StepWraps(s: State, root: nat, op: RootOp)
    ensures RootStep(s, root, op) == RootStep(s, root, op.(virt := op.virt % VA_SPAN))
  {
    hide I1, I2, I3, EnsureTable, PageDesc, WithRights, IsValid, TableBit, OutFrame;
    IndicesWrap(op.virt);
  }

  /** The space is whole and shares no frame with the kernel root. */
  ghost predicate Beside(s: State, own: Tree, root: nat, kernel: nat) {
    Space(s, own) && own[Root] == root && kernel < LIMIT && kernel !in own.Values && kernel !in s.free
  }

  lemma StepBeside(s: State, own: Tree, root: nat, kernel: nat, op: RootOp) returns (own': Tree)
    requires Beside(s, own, root, kernel)
    ensures var s' := RootStep(s, root, op);
            Beside(s', own', root, kernel) && s'.mem[kernel] == s.mem[kernel]
  {
    hide IsTree, MapPage, UpdateFlags, UnmapUserPage, Walk, HwBut, PageDesc, WithRights, I1, I2, I3;
    StepWraps(s, root, op);
    var virt := op.virt % VA_SPAN;
    own' := own;
    match op
    case Map(_, phys, rights) =>
      own' := MapOnTree(s, root, virt, PageDesc(phys, rights), own);
      FreeKept(s, root, virt, PageDesc(phys, rights));
    case Update(_, writable, exec) => UpdateOnTree(s.mem, root, virt, writable, exec, own);
    case Unmap(_) => UnmapOnTree(s.mem, root, virt, own);
  }

  lemma FreeKept(s: State, root: nat, virt: nat, d: nat)
    ensures MapPage(s, root, virt, d).1.free <= s.free
  {
    hide EnsureTable, I1, I2, I3;
    FreeShrinks(s, root, I1(virt), MIB2);
    var (o, s1) := EnsureTable(s, root, I1(virt), MIB2);
    if o.Done? {
      FreeShrinks(s1, o.value, I2(virt), PAGE);
    }
  }

  lemma {:induction false} RunBeside(s: State, root: nat, kernel: nat, ops: seq<RootOp>, own: Tree) returns (own': Tree)
    requires Beside(s, own, root, kernel)
    ensures var s' := RootRun(s, root, ops);
            Beside(s', own', root, kernel) && s'.mem[kernel] == s.mem[kernel]
  {
    hide Beside, RootStep;
    own' := own;
    if ops != [] {
      own' := RunBeside(s, root, kernel, ops[..|ops| - 1], own);
      own' := StepBeside(RootRun(s, root, ops[..|ops| - 1]), own', root, kernel, ops[|ops| - 1]);
    }
  }

  /** A root starts as a copy of the kernel's. Whatever is then mapped, changed and unmapped in
      it, at any addresses, the kernel root's words and every translation through them stay. */
  lemma KernelRootKept(s: State, root: nat, kernel: nat, ops: seq<RootOp>)
    requires root < LIMIT && kernel < LIMIT && root != kernel && root !in s.free && kernel !in s.free
    requires s.mem[root] == s.mem[kernel] && BlocksOnly(s.mem[kernel])
    ensures var s' := RootRun(s, root, ops);
            s'.mem[kernel] == s.mem[kernel] && forall va: nat :: Hw(s'.mem, kernel, va) == Hw(s.mem, kernel, va)
  {
    hide RootRun, IsTree, IsValid, TableBit, OutFrame;
    FreshRoot(s.mem, root);
    var own := RunBeside(s, root, kernel, ops, map[Root := root]);
  }
}
