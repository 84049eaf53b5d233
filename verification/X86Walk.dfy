/** The x86_64 4-level page tables as data: page-table words, index arithmetic, the walk,
    and the tree that table frames form. Words and addresses are `u64` values as naturals,
    so `x >> k` is `x / 2^k`, `x & (2^k - 1)` is `x % 2^k`, and the or of two values with
    no common bit is their sum. */
module X86Walk {

  import opened Options
  import opened PhysMemory

  const ADDR_SPAN: nat := 0x100_0000_0000
  const NX_BIT: nat := 0x8000_0000_0000_0000

  // ── Words ──────────────────────────────────────────────────────────────────

  datatype PageFlags = PageFlags(
    present: bool, writable: bool, user: bool, writeThrough: bool, cacheDisable: bool,
    accessed: bool, dirty: bool, huge: bool, global: bool, noExecute: bool)

  function Bit(b: bool): (n: nat)
    ensures n <= 1
  {
    if b then 1 else 0
  }

  function Bits(f: PageFlags): nat {
    LowBits(f) + Bit(f.noExecute) * NX_BIT
  }

  /** The flags of intermediate tables: PRESENT | WRITABLE | USER. */
  const TABLE_FLAGS := PageFlags(true, true, true, false, false, false, false, false, false, false)

  function UserFlags(writable: bool, exec: bool): PageFlags {
    PageFlags(true, writable, true, false, false, false, false, false, false, !exec)
  }

  /** The frame number in the address field, bits 12 to 51. */
  function FrameNo(w: nat): nat {
    w / 4096 % ADDR_SPAN
  }

  /** `w & PHYS_MASK` */
  function PhysOf(w: nat): nat {
    FrameNo(w) * 4096
  }

  lemma FrameOfPhys(f: nat)
    ensures f * 4096 / 4096 == f
  {
  }

  predicate Present(w: nat) {
    w % 2 == 1
  }

  lemma ZeroAbsent()
    ensures !Present(0)
  {
  }

  predicate Writable(w: nat) {
    w / 2 % 2 == 1
  }

  predicate Huge(w: nat) {
    w / 128 % 2 == 1
  }

  predicate NoExecute(w: nat) {
    w / NX_BIT % 2 == 1
  }

  /** `(phys & PHYS_MASK) | flags` */
  function Entry(phys: nat, flags: PageFlags): nat {
    PhysOf(phys) + Bits(flags)
  }

  function LowBits(f: PageFlags): nat {
    Bit(f.present) + 2 * Bit(f.writable)
    + 4 * (Bit(f.user) + 2 * Bit(f.writeThrough) + 4 * Bit(f.cacheDisable)
           + 8 * Bit(f.accessed) + 16 * Bit(f.dirty))
    + 128 * Bit(f.huge) + 256 * Bit(f.global)
  }

  lemma LowFields(f: PageFlags)
    ensures var l := LowBits(f);
            l < 512 && Present(l) == f.present && Writable(l) == f.writable && Huge(l) == f.huge
  {
  }

  lemma HighFields(f: nat, low: nat, n: nat)
    requires f < ADDR_SPAN && low < 512 && n <= 1
    ensures var w := f * 4096 + low + n * NX_BIT;
            FrameNo(w) == f && w / NX_BIT == n
  {
  }

  lemma LowKept(f: nat, low: nat, n: nat)
    requires low < 512
    ensures (f * 4096 + low + n * NX_BIT) % 512 == low
  {
  }

  lemma LowDecides(w: nat, l: nat)
    requires l == w % 512
    ensures Present(w) == Present(l) && Writable(w) == Writable(l) && Huge(w) == Huge(l)
  {
    var k := w / 512;
    assert w == k * 512 + l;
    assert w / 2 == k * 256 + l / 2;
    assert w / 128 == k * 4 + l / 128;
  }

  lemma EntryFields(phys: nat, flags: PageFlags)
    ensures var w := Entry(phys, flags);
            && FrameNo(w) == FrameNo(phys)
            && Present(w) == flags.present
            && Writable(w) == flags.writable
            && Huge(w) == flags.huge
            && NoExecute(w) == flags.noExecute
  {
    var n := Bit(flags.noExecute);
    LowFields(flags);
    HighFields(FrameNo(phys), LowBits(flags), n);
    LowKept(FrameNo(phys), LowBits(flags), n);
    LowDecides(Entry(phys, flags), LowBits(flags));
  }

  predicate User(w: nat) {
    w / 4 % 2 == 1
  }

  lemma UserDigit(low: nat, user: nat, rest: nat)
    requires low < 4 && user <= 1
    ensures User(low + 4 * (user + 2 * rest)) == (user == 1)
  {
  }

  /** A page is a user page exactly when asked for. */
  lemma EntryUser(phys: nat, f: PageFlags)
    ensures User(Entry(phys, f)) == f.user
  {
    hide PhysOf;
    var rest := Bit(f.writeThrough) + 2 * Bit(f.cacheDisable) + 4 * Bit(f.accessed) + 8 * Bit(f.dirty)
                + 16 * Bit(f.huge) + 32 * Bit(f.global);
    var high := FrameNo(phys) * 512 + Bit(f.noExecute) * (NX_BIT / 8);
    EntrySplits(phys, f, rest, high);
    UserDigit(Bit(f.present) + 2 * Bit(f.writable), Bit(f.user), rest + high);
  }

  /** The word of a user page, bit by bit: the frame, present, writable as asked, user, and
      no-execute unless executable. */
  lemma UserWord(phys: nat, writable: bool, exec: bool)
    ensures Rights(Entry(phys, UserFlags(writable, exec))) == Access(phys / 0x1000 % 0x100_0000_0000, writable, true, exec)
    ensures Entry(phys, UserFlags(writable, exec)) % 0x1000 == (if writable then 7 else 5)
  {
    EntryFields(phys, UserFlags(writable, exec));
    EntryUser(phys, UserFlags(writable, exec));
    LowKept(FrameNo(phys), LowBits(UserFlags(writable, exec)), Bit(!exec));
    UserLow(FrameNo(phys), if writable then 7 else 5, Bit(!exec));
  }

  lemma UserLow(f: nat, low: nat, n: nat)
    requires low < 512
    ensures (f * 4096 + low + n * NX_BIT) % 4096 == low
  {
  }

  lemma EntrySplits(phys: nat, f: PageFlags, rest: nat, high: nat)
    requires rest == Bit(f.writeThrough) + 2 * Bit(f.cacheDisable) + 4 * Bit(f.accessed) + 8 * Bit(f.dirty)
                     + 16 * Bit(f.huge) + 32 * Bit(f.global)
    requires high == FrameNo(phys) * 512 + Bit(f.noExecute) * (NX_BIT / 8)
    ensures Entry(phys, f) ==
            Bit(f.present) + 2 * Bit(f.writable) + 4 * (Bit(f.user) + 2 * (rest + high))
  {
    hide FrameNo, Bit;
  }

  /** The word of a child table: its frame, PRESENT, WRITABLE and USER. */
  function TableEntry(f: nat): (w: nat)
    requires f < LIMIT
    ensures Present(w) && FrameNo(w) == f && Writable(w) && w % 4096 == 7 && !Huge(w) && !NoExecute(w)
  {
    EntryFields(f * 4096, TABLE_FLAGS);
    Entry(f * 4096, TABLE_FLAGS)
  }

  // ── Indices ────────────────────────────────────────────────────────────────

  function I4(v: nat): nat { v / 0x80_0000_0000 % ENTRIES }

  function I3(v: nat): nat { v / 0x4000_0000 % ENTRIES }

  function I2(v: nat): nat { v / 0x20_0000 % ENTRIES }

  function I1(v: nat): nat { v / 0x1000 % ENTRIES }

  /** The index into the level-`k` table, level 4 being the root. */
  function Index(k: nat, v: nat): nat
    requires 1 <= k <= 4
  {
    if k == 4 then I4(v) else if k == 3 then I3(v) else if k == 2 then I2(v) else I1(v)
  }

  /** The page number in the 48 translated bits. */
  function Page(v: nat): nat { v / 0x1000 % 0x10_0000_0000 }

  /** User addresses: the PML4 index is below 256. */
  predicate LowerHalf(v: nat) { I4(v) < 256 }

  lemma PageDigits(v: nat)
    ensures Page(v) == ((I4(v) * 512 + I3(v)) * 512 + I2(v)) * 512 + I1(v)
  {
    var n := v / 0x1000;
    var a, b, c := n / 512, n / 512 / 512, n / 512 / 512 / 512;
    assert v / 0x20_0000 == a && v / 0x4000_0000 == b && v / 0x80_0000_0000 == c;
    assert n == a * 512 + I1(v) && a == b * 512 + I2(v) && b == c * 512 + I3(v);
    var d := c / 512;
    assert c == d * 512 + I4(v);
    assert n == d * 0x10_0000_0000 + (((I4(v) * 512 + I3(v)) * 512 + I2(v)) * 512 + I1(v));
  }

  /** Equal indices at every level are the same page, and conversely. */
  lemma SamePage(v: nat, w: nat)
    ensures Page(v) == Page(w) <==> I4(v) == I4(w) && I3(v) == I3(w) && I2(v) == I2(w) && I1(v) == I1(w)
  {
    PageDigits(v);
    PageDigits(w);
  }

  // ── The walk ───────────────────────────────────────────────────────────────

  function IfPresent(w: nat): Option<nat> {
    if Present(w) then Some(w) else None
  }

  /** `walk_table` followed by one entry read: a null or insane table reads as not mapped. */
  function Step(m: Mem, t: nat, i: nat): Option<nat>
    requires i < ENTRIES
  {
    if t == 0 || t >= LIMIT then None
    else IfPresent(m[t][i])
  }

  /** The leaf word of a virtual address, if every level is present. */
  function Walk(m: Mem, root: nat, v: nat): Option<nat> {
    match Step(m, root, I4(v))
    case None => None
    case Some(e4) =>
      match Step(m, FrameNo(e4), I3(v))
      case None => None
      case Some(e3) =>
        match Step(m, FrameNo(e3), I2(v))
        case None => None
        case Some(e2) => Step(m, FrameNo(e2), I1(v))
  }

  function TranslateUserPage(m: Mem, root: nat, v: nat): Option<nat> {
    match Walk(m, root, v)
    case None => None
    case Some(w) => Some(PhysOf(w))
  }

  function TranslateUserPageFlags(m: Mem, root: nat, v: nat): Option<(nat, bool, bool)> {
    match Walk(m, root, v)
    case None => None
    case Some(w) => Some((PhysOf(w), Writable(w), !NoExecute(w)))
  }

  // ── What the processor grants ──────────────────────────────────────────────

  /** An access: the frame, and whether it may be written, used from user mode and executed. */
  datatype Access = Access(frame: nat, writable: bool, user: bool, execute: bool)

  function Rights(w: nat): Access {
    Access(w / 0x1000 % 0x100_0000_0000, w / 2 % 2 == 1, w / 4 % 2 == 1, w / 0x8000_0000_0000_0000 % 2 == 0)
  }

  /** The rights of one level narrow those of the levels below. */
  function Narrowed(w: nat, below: Option<Access>): Option<Access> {
    match below
    case None => None
    case Some(a) =>
      var r := Rights(w);
      Some(Access(a.frame, r.writable && a.writable, r.user && a.user, r.execute && a.execute))
  }

  /** The processor's own walk: every level present, and the rights of all levels together. */
  function Hw(m: Mem, root: nat, v: nat): Option<Access> {
    match Step(m, root, I4(v))
    case None => None
    case Some(e4) =>
      match Step(m, FrameNo(e4), I3(v))
      case None => None
      case Some(e3) =>
        match Step(m, FrameNo(e3), I2(v))
        case None => None
        case Some(e2) =>
          match Step(m, FrameNo(e2), I1(v))
          case None => None
          case Some(e1) => Narrowed(e4, Narrowed(e3, Narrowed(e2, Some(Rights(e1)))))
  }

  /** A table word that narrows nothing: present, writable, user and executable. */
  predicate Wide(w: nat) {
    w % 8 == 7 && w / 0x8000_0000_0000_0000 % 2 == 0
  }

  lemma TableIsWide(f: nat)
    requires f < LIMIT
    ensures Wide(TableEntry(f))
  {
    hide TableEntry, FrameNo, Present, Writable, Huge;
    LowThree(TableEntry(f));
  }

  lemma LowThree(w: nat)
    requires w % 4096 == 7
    ensures w % 8 == 7
  {
  }

  /** The tables of an address, as far as they go, narrow nothing. */
  predicate WideAt(m: Mem, root: nat, v: nat) {
    match Step(m, root, I4(v))
    case None => true
    case Some(e4) =>
      Wide(e4) &&
      match Step(m, FrameNo(e4), I3(v))
      case None => true
      case Some(e3) =>
        Wide(e3) &&
        match Step(m, FrameNo(e3), I2(v))
        case None => true
        case Some(e2) => Wide(e2)
  }

  lemma WideGrantsLeaf(m: Mem, root: nat, v: nat)
    requires WideAt(m, root, v)
    ensures Hw(m, root, v) ==
            match Walk(m, root, v)
            case None => None
            case Some(w) => Some(Rights(w))
  {
    hide Step, FrameNo, Wide, Narrowed, Rights, I1, I2, I3, I4;
    IndexBound(v);
    var e4 := Step(m, root, I4(v));
    if e4.Some? {
      var e3 := Step(m, FrameNo(e4.value), I3(v));
      if e3.Some? {
        var e2 := Step(m, FrameNo(e3.value), I2(v));
        if e2.Some? && Walk(m, root, v).Some? {
          var r := Some(Rights(Walk(m, root, v).value));
          WideNarrowsNothing(e2.value, r);
          WideNarrowsNothing(e3.value, r);
          WideNarrowsNothing(e4.value, r);
        }
      }
    }
  }

  lemma WideNarrowsNothing(w: nat, below: Option<Access>)
    requires Wide(w)
    ensures Narrowed(w, below) == below
  {
  }

  // ── The tree ───────────────────────────────────────────────────────────────

  /** Only the lower half of the root belongs to the process. */
  function Width(p: Path): nat {
    if p.Root? then 256 else ENTRIES
  }

  function P3(v: nat): Path { Child(Child(Child(Root, I4(v)), I3(v)), I2(v)) }

  function P4(v: nat): Path { Child(P3(v), I1(v)) }

  /** Where the level-`k` table of an address hangs. */
  function TablePath(k: nat, v: nat): Path
    requires 1 <= k <= 4
  {
    if k == 4 then Root
    else if k == 3 then Child(Root, I4(v))
    else if k == 2 then Child(Child(Root, I4(v)), I3(v))
    else P3(v)
  }

  lemma PathDepths(v: nat)
    ensures Depth(Child(Root, I4(v))) == 1
    ensures Depth(Child(Child(Root, I4(v)), I3(v))) == 2
    ensures Depth(P3(v)) == 3 && Depth(P4(v)) == 4
  {
  }

  lemma TablePathStep(k: nat, v: nat)
    requires 2 <= k <= 4 && LowerHalf(v)
    ensures Child(TablePath(k, v), Index(k, v)) == TablePath(k - 1, v)
    ensures Depth(TablePath(k, v)) <= 2 && Index(k, v) < Width(TablePath(k, v))
  {
  }

  /** Every path holds its own frame and its prefixes are present. */
  ghost predicate Nodes(own: Tree, d: nat) {
    && Root in own
    && (forall q :: q in own ==> Depth(q) <= d && 0 < own[q] < LIMIT)
    && (forall q :: q in own && q.Child? ==> q.parent in own && q.index < Width(q.parent))
    && (forall p, q :: p in own && q in own && own[p] == own[q] ==> p == q)
  }

  /** An entry is present exactly when its child is in the tree, and then names it. */
  ghost predicate Linked(m: Mem, own: Tree, p: Path, i: nat)
    requires p in own && own[p] < LIMIT && i < ENTRIES
  {
    var w := m[own[p]][i];
    && (Present(w) <==> Child(p, i) in own)
    && (Present(w) ==> FrameNo(w) == own[Child(p, i)] && (Depth(p) <= 2 ==> !Huge(w)))
  }

  /** The tree of an address space to depth `d`: 3 for the tables alone, 4 when every
      mapped page is a frame of the tree too. */
  ghost predicate IsTree(m: Mem, own: Tree, d: nat) {
    && Nodes(own, d)
    && (forall p, i: nat :: p in own && Depth(p) < d && i < Width(p) ==> Linked(m, own, p, i))
  }

  lemma TreeNodes(m: Mem, own: Tree, d: nat)
    requires IsTree(m, own, d)
    ensures Nodes(own, d)
  {
  }

  lemma TreeEntry(m: Mem, own: Tree, d: nat, p: Path, i: nat)
    requires IsTree(m, own, d) && p in own && Depth(p) < d && i < Width(p)
    ensures 0 < own[p] < LIMIT && Linked(m, own, p, i)
    ensures Child(p, i) in own ==> 0 < own[Child(p, i)] < LIMIT
  {
  }

  /** The leaf word of an address by its path. */
  ghost function LeafAt(m: Mem, own: Tree, v: nat): Option<nat>
    requires P3(v) in own ==> own[P3(v)] < LIMIT
  {
    if P3(v) in own then IfPresent(m[own[P3(v)]][I1(v)]) else None
  }

  /** On a tree the walk is one lookup of the path and one read of the leaf. */
  lemma WalkOnTree(m: Mem, own: Tree, d: nat, v: nat)
    requires d >= 3 && IsTree(m, own, d) && LowerHalf(v)
    ensures Walk(m, own[Root], v) == LeafAt(m, own, v)
  {
    PathDepths(v);
    var p1 := Child(Root, I4(v));
    var p2 := Child(p1, I3(v));
    assert Linked(m, own, Root, I4(v));
    if p1 in own {
      assert Linked(m, own, p1, I3(v));
      if p2 in own {
        assert Linked(m, own, p2, I2(v));
      }
    }
  }

  /** Writing one leaf word changes the walk of one page and of no other. */
  lemma LeafWrite(m: Mem, m': Mem, own: Tree, virt: nat, w: nat)
    requires IsTree(m, own, 3) && LowerHalf(virt) && P3(virt) in own
    requires m' == Write(m, own[P3(virt)], I1(virt), w)
    ensures IsTree(m', own, 3)
    ensures forall v: nat :: LowerHalf(v) ==>
              Walk(m', own[Root], v) == (if Page(v) == Page(virt) then IfPresent(w) else Walk(m, own[Root], v))
  {
    PathDepths(virt);
    forall p, i: nat | p in own && Depth(p) < 3 && i < Width(p) ensures Linked(m', own, p, i) {
      assert Linked(m, own, p, i);
      assert own[p] != own[P3(virt)];
    }
    forall v: nat | LowerHalf(v)
      ensures Walk(m', own[Root], v) == if Page(v) == Page(virt) then IfPresent(w) else Walk(m, own[Root], v)
    {
      WalkOnTree(m, own, 3, v);
      WalkOnTree(m', own, 3, v);
      SamePage(v, virt);
      PathDepths(v);
      if P3(v) in own && P3(v) != P3(virt) {
        assert own[P3(v)] != own[P3(virt)];
      }
    }
  }

  /** Hanging a zeroed table on an absent entry keeps the tree. */
  lemma NewTable(m: Mem, m': Mem, own: Tree, own': Tree, p: Path, i: nat, f: nat, w: nat)
    requires IsTree(m, own, 3) && p in own && Depth(p) <= 2 && i < Width(p)
    requires Child(p, i) !in own && 0 < f < LIMIT && f !in own.Values
    requires Present(w) && FrameNo(w) == f && !Huge(w)
    requires own' == own[Child(p, i) := f]
    requires m' == Write(Clear(m, f), own[p], i, w)
    ensures IsTree(m', own', 3)
  {
    NewNodes(own, own', p, i, f);
    forall q, j: nat | q in own' && Depth(q) < 3 && j < Width(q) ensures Linked(m', own', q, j) {
      if q == Child(p, i) {
        assert Child(q, j) !in own;
      } else {
        NewTableOld(m, m', own, own', p, i, f, w, q, j);
      }
    }
  }

  lemma NewTableOld(m: Mem, m': Mem, own: Tree, own': Tree, p: Path, i: nat, f: nat, w: nat, q: Path, j: nat)
    requires Nodes(own, 3) && p in own && i < Width(p)
    requires Child(p, i) !in own && 0 < f < LIMIT && f !in own.Values
    requires Present(w) && FrameNo(w) == f && !Huge(w)
    requires own' == own[Child(p, i) := f]
    requires m' == Write(Clear(m, f), own[p], i, w)
    requires q in own && j < Width(q) && Linked(m, own, q, j)
    ensures Linked(m', own', q, j)
  {
    assert own[q] in own.Values;
    if q == p && j == i {
      assert m'[own[q]][j] == w;
    } else {
      assert m'[own[q]][j] == m[own[q]][j];
      assert Child(q, j) != Child(p, i);
    }
  }

  /** Every table is linked by a word that narrows no right. */
  ghost predicate Open(m: Mem, own: Tree) {
    forall p, i: nat :: p in own && own[p] < LIMIT && Depth(p) <= 2 && i < Width(p) && Child(p, i) in own ==>
      Wide(m[own[p]][i])
  }

  /** Through open tables the processor grants what the leaf word says. */
  lemma HwIsLeaf(m: Mem, own: Tree, d: nat, v: nat)
    requires d >= 3 && IsTree(m, own, d) && Open(m, own) && LowerHalf(v)
    ensures Hw(m, own[Root], v) ==
            match Walk(m, own[Root], v)
            case None => None
            case Some(w) => Some(Rights(w))
  {
    hide Hw, Walk;
    OpenIsWide(m, own, d, v);
    WideGrantsLeaf(m, own[Root], v);
  }

  /** What the kernel reads back of a page is what the processor grants there. */
  lemma TranslateIsGrant(m: Mem, own: Tree, d: nat, v: nat)
    requires d >= 3 && IsTree(m, own, d) && Open(m, own) && LowerHalf(v)
    ensures match Hw(m, own[Root], v)
            case None => TranslateUserPage(m, own[Root], v) == None && TranslateUserPageFlags(m, own[Root], v) == None
            case Some(a) =>
              && TranslateUserPage(m, own[Root], v) == Some(a.frame * 4096)
              && TranslateUserPageFlags(m, own[Root], v) == Some((a.frame * 4096, a.writable, a.execute))
  {
    hide Hw, Walk, IsTree, Open;
    HwIsLeaf(m, own, d, v);
  }

  lemma OpenIsWide(m: Mem, own: Tree, d: nat, v: nat)
    requires d >= 3 && IsTree(m, own, d) && Open(m, own) && LowerHalf(v)
    ensures WideAt(m, own[Root], v)
  {
    hide Present, FrameNo, Huge, Wide, I1, I2, I3;
    PathDepths(v);
    IndexBound(v);
    var p1 := Child(Root, I4(v));
    var p2 := Child(p1, I3(v));
    assert Linked(m, own, Root, I4(v));
    if p1 in own {
      assert Linked(m, own, p1, I3(v));
      if p2 in own {
        assert Linked(m, own, p2, I2(v));
      }
    }
  }

  lemma IndexBound(v: nat)
    ensures I1(v) < ENTRIES && I2(v) < ENTRIES && I3(v) < ENTRIES && I4(v) < ENTRIES
  {
  }

  lemma NewNodes(own: Tree, own': Tree, p: Path, i: nat, f: nat)
    requires Nodes(own, 3) && p in own && Depth(p) <= 2 && i < Width(p)
    requires Child(p, i) !in own && 0 < f < LIMIT && f !in own.Values
    requires own' == own[Child(p, i) := f]
    ensures Nodes(own', 3)
  {
  }

  // ── The shared kernel half ─────────────────────────────────────────────────

  /** Tables of the shared upper half, by level: the walk of an upper address stays in
      them. */
  ghost predicate KernelHalf(m: Mem, root: nat, k3: set<nat>, k2: set<nat>, k1: set<nat>) {
    && 0 < root < LIMIT
    && (forall i :: 256 <= i < ENTRIES && Present(m[root][i]) ==> FrameNo(m[root][i]) in k3)
    && (forall t, i :: t in k3 && 0 < t < LIMIT && 0 <= i < ENTRIES && Present(m[t][i]) ==> FrameNo(m[t][i]) in k2)
    && (forall t, i :: t in k2 && 0 < t < LIMIT && 0 <= i < ENTRIES && Present(m[t][i]) ==> FrameNo(m[t][i]) in k1)
  }

  /** Nothing done inside a process's own frames moves a kernel translation. */
  lemma KernelHalfUnchanged(m: Mem, m': Mem, root: nat, frames: set<nat>, k3: set<nat>, k2: set<nat>, k1: set<nat>, v: nat)
    requires KernelHalf(m, root, k3, k2, k1)
    requires (k3 + k2 + k1) !! frames
    requires SameExcept(m, m', frames)
    requires forall i :: 256 <= i < ENTRIES ==> m'[root][i] == m[root][i]
    requires !LowerHalf(v)
    ensures Walk(m', root, v) == Walk(m, root, v)
  {
  }
}
