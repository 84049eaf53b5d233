/** The life of an address space: creation, demand faults in the anonymous window, range
    unmapping and teardown. No frame leaks. */
module X86Life {

  import opened Options
  import opened PhysMemory
  import opened X86Walk
  import opened X86Space

  const MIRROR_BASE: nat := 0x1_0000_0000
  const ANON_BASE: nat := 0x3_0000_0000
  const ANON_END: nat := 0x100_0000_0000
  const USER_END: nat := 0x8000_0000_0000
  const U64: nat := 0x1_0000_0000_0000_0000

  // ── The operations ─────────────────────────────────────────────────────────

  /** `free_frame`; frames below 1 MiB are never handed out, so never come back. */
  ghost function FreeFrame(s: State, f: nat): State {
    if 256 <= f < 0x10_0000 then s.(free := s.free + {f}) else s
  }

  /** A new root: zeroed lower half, kernel entries copied. */
  ghost function AllocRoot(s: State, kernelRoot: nat): (Option<nat>, State)
    requires kernelRoot < LIMIT
  {
    if s.free == {} then (None, s)
    else
      var f := Least(s.free);
      var m := Clear(s.mem, f);
      (Some(f), State(m[f := ZeroTable()[..256] + m[kernelRoot][256..]], s.free - {f}))
  }

  /** `demand_page` on the root in CR3; the result is whether the fault was resolved. */
  ghost function Demand(s: State, root: nat, cr2: nat, error: nat): (bool, State) {
    var page := cr2 / 4096 * 4096;
    if error % 2 == 1 then (false, s)
    else if Walk(s.mem, root, page).Some? then (true, s)
    else if MIRROR_BASE <= page < ANON_BASE && Walk(s.mem, root, page - MIRROR_BASE).Some? then
      var (phys, writable, exec) := TranslateUserPageFlags(s.mem, root, page - MIRROR_BASE).value;
      var (o, s') := MapPageIn(s, root, page, phys, UserFlags(writable, exec));
      (o.Done?, s')
    else if ANON_BASE <= page < ANON_END then FaultIn(s, root, page)
    else (false, s)
  }

  /** Back an anonymous page with a zeroed frame, mapped RWX; hand the frame back if the
      mapping fails. */
  ghost function FaultIn(s: State, root: nat, page: nat): (bool, State) {
    if s.free == {} then (false, s)
    else
      var f := Least(s.free);
      var (o, s') := MapPageIn(Taken(s), root, page, f * 4096, UserFlags(true, true));
      (o.Done?, if o.Done? then s' else FreeFrame(s', f))
  }

  /** One page of `unmap_user_range`: unmapped and its frame freed, or skipped; None is a
      panic. */
  ghost function UnmapOne(s: State, root: nat, v: nat): Option<State> {
    match UnmapPage(s.mem, root, v)
    case (Done(phys), m) => Some(FreeFrame(s.(mem := m), phys / 4096))
    case (Failed, _) => Some(s)
    case (Panicked, _) => None
  }

  /** The page loop of `unmap_user_range` from page `v` on. */
  ghost function UnmapPages(s: State, root: nat, v: nat, end: nat): State
    decreases end - v
  {
    if v >= end then s
    else
      match UnmapOne(s, root, v)
      case Some(s') => UnmapPages(s', root, v + 4096, end)
      case None => s
  }

  function FirstPage(start: nat): nat {
    start / 4096 * 4096
  }

  /** The end of a range, rounded up; the sum wraps. */
  function EndPage(start: nat, size: nat): nat {
    (start + size + 4095) % U64 / 4096 * 4096
  }

  ghost function UnmapRange(s: State, root: nat, start: nat, size: nat): State {
    if root == 0 || root >= LIMIT || size == 0 then s
    else UnmapPages(s, root, FirstPage(start), EndPage(start, size))
  }

  function LevelWidth(level: nat): nat {
    if level == 0 then 256 else ENTRIES
  }

  /** The frames `free_user_pml4` frees for one entry of a table; level 0 is the PML4. */
  ghost function FreedEntry(m: Mem, e: nat, level: nat): set<nat>
    requires level <= 3
    decreases 4 - level, 0
  {
    if !Present(e) then {}
    else if level == 3 then {FrameNo(e)}
    else if level > 0 && Huge(e) then {FrameNo(e)}
    else if FrameNo(e) == 0 || FrameNo(e) >= LIMIT then {}
    else FreedEntries(m, FrameNo(e), level + 1, ENTRIES) + {FrameNo(e)}
  }

  /** The frames freed for the first `n` entries of a table. */
  ghost function FreedEntries(m: Mem, t: nat, level: nat, n: nat): set<nat>
    requires level <= 3 && t < LIMIT && n <= ENTRIES
    decreases 4 - level, n + 1
  {
    if n == 0 then {}
    else FreedEntries(m, t, level, n - 1) + FreedEntry(m, m[t][n - 1], level)
  }

  ghost function FreedSpace(m: Mem, root: nat): set<nat> {
    if root == 0 || root >= LIMIT then {} else FreedEntries(m, root, 0, 256) + {root}
  }

  /** How many frees one entry takes. */
  ghost function EntryFrees(m: Mem, e: nat, level: nat): nat
    requires level <= 3
    decreases 4 - level, 0
  {
    if !Present(e) then 0
    else if level == 3 || (level > 0 && Huge(e)) then 1
    else if FrameNo(e) == 0 || FrameNo(e) >= LIMIT then 0
    else TableFrees(m, FrameNo(e), level + 1, ENTRIES) + 1
  }

  ghost function TableFrees(m: Mem, t: nat, level: nat, n: nat): nat
    requires level <= 3 && t < LIMIT && n <= ENTRIES
    decreases 4 - level, n + 1
  {
    if n == 0 then 0 else TableFrees(m, t, level, n - 1) + EntryFrees(m, m[t][n - 1], level)
  }

  ghost function SpaceFrees(m: Mem, root: nat): nat {
    if root == 0 || root >= LIMIT then 0 else TableFrees(m, root, 0, 256) + 1
  }

  // ── Pages as frames of the tree ────────────────────────────────────────────

  ghost function Tables(own: Tree): Tree {
    map p | p in own && Depth(p) <= 3 :: own[p]
  }

  lemma TablesTree(m: Mem, own: Tree)
    requires IsTree(m, own, 4)
    ensures IsTree(m, Tables(own), 3) && Tables(own).Values <= own.Values
  {
    hide Present, FrameNo, Huge;
    var tab := Tables(own);
    forall f | f in tab.Values ensures f in own.Values {
      var p :| p in tab && tab[p] == f;
      assert own[p] == f;
    }
    forall p, i: nat | p in tab && Depth(p) < 3 && i < Width(p) ensures Linked(m, tab, p, i) {
      assert Linked(m, own, p, i);
    }
  }

  /** What joining the grown tables to the old pages holds. */
  ghost predicate Joined(own: Tree, tab': Tree, all: Tree, free: set<nat>) {
    && (forall q :: q in all <==> q in own || q in tab')
    && (forall q :: q in own ==> all[q] == own[q] && own[q] !in free)
    && (forall q :: q in all && Depth(q) <= 3 ==> q in tab' && all[q] == tab'[q])
    && (forall q :: q in all && q !in own ==> all[q] in free)
  }

  lemma Join(own: Tree, tab': Tree, free: set<nat>, free': set<nat>)
    requires Nodes(own, 4) && Nodes(tab', 3)
    requires Extends(Tables(own), tab', free, free') && own.Values !! free
    ensures Joined(own, tab', own + tab', free)
    ensures free' == free - (own + tab').Values
  {
    JoinPaths(own, tab', free, free');
    var all := own + tab';
    forall f | f in free ensures f in all.Values <==> f in tab'.Values {
      if f in tab'.Values {
        var q :| q in tab' && tab'[q] == f;
        assert all[q] == f;
      }
      if f in all.Values {
        var q :| q in all && all[q] == f;
        if q in own { assert own[q] in own.Values; }
      }
    }
  }

  lemma JoinPaths(own: Tree, tab': Tree, free: set<nat>, free': set<nat>)
    requires Nodes(own, 4) && Nodes(tab', 3)
    requires Extends(Tables(own), tab', free, free') && own.Values !! free
    ensures Joined(own, tab', own + tab', free)
  {
    hide Nodes;
    var all := own + tab';
    forall q | q in own ensures all[q] == own[q] && own[q] !in free {
      assert own[q] in own.Values;
      if q in tab' { TableKept(own, tab', q); }
    }
    forall q | q in all && Depth(q) <= 3 ensures q in tab' && all[q] == tab'[q] {
      if q in own { assert q in Tables(own); }
    }
  }

  lemma TableKept(own: Tree, tab': Tree, q: Path)
    requires Nodes(tab', 3) && q in own && q in tab'
    requires forall p :: p in Tables(own) ==> p in tab' && tab'[p] == Tables(own)[p]
    ensures tab'[q] == own[q]
  {
    assert q in Tables(own);
  }

  lemma JoinedNodes(own: Tree, tab': Tree, all: Tree, free: set<nat>)
    requires Nodes(own, 4) && Nodes(tab', 3) && Joined(own, tab', all, free)
    ensures Nodes(all, 4)
  {
  }

  lemma JoinedLeaf(m: Mem, m': Mem, own: Tree, tab': Tree, all: Tree, p: Path, i: nat)
    requires IsTree(m, own, 4) && Nodes(all, 4) && Nodes(tab', 3) && Nodes(Tables(own), 3)
    requires LeavesKept(m, m', Tables(own), tab')
    requires forall q :: q in all <==> q in own || q in tab'
    requires forall q :: q in own ==> all[q] == own[q]
    requires p in tab' && all[p] == tab'[p] && Depth(p) == 3 && i < ENTRIES
    ensures Linked(m', all, p, i)
  {
    hide Present, FrameNo, Huge;
    ZeroAbsent();
    assert Depth(Child(p, i)) == 4;
    assert p in own ==> Linked(m, own, p, i);
    assert p in own ==> p in Tables(own);
    assert Child(p, i) in all <==> Child(p, i) in own;
  }

  /** The pages of a full tree survive the growth of its tables. */
  lemma Regrown(s: State, s': State, own: Tree, tab': Tree)
    requires IsTree(s.mem, own, 4) && IsTree(s'.mem, tab', 3)
    requires Grown(s, s', Tables(own), tab') && own.Values !! s.free
    ensures IsTree(s'.mem, own + tab', 4)
    ensures s'.free == s.free - (own + tab').Values
    ensures Joined(own, tab', own + tab', s.free)
  {
    hide Present, FrameNo, Huge;
    var all := own + tab';
    Join(own, tab', s.free, s'.free);
    JoinedNodes(own, tab', all, s.free);
    forall p, i: nat | p in all && Depth(p) < 4 && i < Width(p) ensures Linked(s'.mem, all, p, i) {
      if Depth(p) < 3 {
        assert Linked(s'.mem, tab', p, i);
        assert Depth(Child(p, i)) <= 3;
      } else {
        JoinedLeaf(s.mem, s'.mem, own, tab', all, p, i);
      }
    }
  }

  lemma AddNode(own: Tree, p: Path, i: nat, f: nat)
    requires Nodes(own, 4) && p in own && Depth(p) == 3 && i < Width(p) && Child(p, i) !in own
    requires 0 < f < LIMIT && f !in own.Values
    ensures Nodes(own[Child(p, i) := f], 4)
  {
  }

  lemma RemoveNode(own: Tree, p: Path)
    requires Nodes(own, 4) && p in own && Depth(p) == 4
    ensures Nodes(own - {p}, 4)
  {
  }

  /** A leaf write leaves every entry but one linked as it was. */
  lemma OtherEntry(m: Mem, m': Mem, own: Tree, own': Tree, virt: nat, w: nat, p: Path, i: nat)
    requires Nodes(own, 4) && LeafWritten(m, m', own, virt, w) && p in own && i < Width(p)
    requires p in own' && own'[p] == own[p] && !(p == P3(virt) && i == I1(virt))
    requires Child(p, i) in own' <==> Child(p, i) in own
    requires Child(p, i) in own ==> own'[Child(p, i)] == own[Child(p, i)]
    requires Linked(m, own, p, i)
    ensures Linked(m', own', p, i)
  {
    hide Present, FrameNo, Huge;
    assert p != P3(virt) ==> own[p] != own[P3(virt)];
    assert m'[own[p]][i] == m[own[p]][i];
  }

  /** Writing a present leaf word over an absent one adds a page. */
  lemma AddPage(m: Mem, m': Mem, own: Tree, virt: nat, f: nat, w: nat)
    requires IsTree(m, own, 4) && P4(virt) !in own && LeafWritten(m, m', own, virt, w)
    requires 0 < f < LIMIT && f !in own.Values && Present(w) && FrameNo(w) == f
    ensures IsTree(m', own[P4(virt) := f], 4)
  {
    hide Present, FrameNo, Huge;
    PathDepths(virt);
    var own' := own[P4(virt) := f];
    AddNode(own, P3(virt), I1(virt), f);
    forall p, i: nat | p in own' && Depth(p) < 4 && i < Width(p) ensures Linked(m', own', p, i) {
      if p != P3(virt) || i != I1(virt) {
        assert Linked(m, own, p, i);
        OtherEntry(m, m', own, own', virt, w, p, i);
      }
    }
  }

  /** Clearing a leaf word removes its page and nothing else. */
  lemma RemovePage(m: Mem, m': Mem, own: Tree, virt: nat)
    requires IsTree(m, own, 4) && P4(virt) in own && LeafWritten(m, m', own, virt, 0)
    ensures IsTree(m', own - {P4(virt)}, 4)
  {
    hide Present, FrameNo, Huge;
    ZeroAbsent();
    PathDepths(virt);
    var own' := own - {P4(virt)};
    RemoveNode(own, P4(virt));
    forall p, i: nat | p in own' && Depth(p) < 4 && i < Width(p) ensures Linked(m', own', p, i) {
      if p != P3(virt) || i != I1(virt) {
        assert Linked(m, own, p, i);
        OtherEntry(m, m', own, own', virt, 0, p, i);
      }
    }
  }

  /** On a full tree a page is mapped exactly when it is in the tree, to its own frame. */
  lemma WalkIsPage(m: Mem, own: Tree, v: nat)
    requires IsTree(m, own, 4) && LowerHalf(v)
    ensures match Walk(m, own[Root], v)
            case None => P4(v) !in own
            case Some(w) => P4(v) in own && FrameNo(w) == own[P4(v)]
  {
    WalkOnTree(m, own, 4, v);
    PathDepths(v);
    if P3(v) in own {
      assert Linked(m, own, P3(v), I1(v));
    }
  }

  lemma ClearKeeps(m: Mem, own: Tree, f: nat)
    requires IsTree(m, own, 4) && f < LIMIT && f !in own.Values
    ensures IsTree(Clear(m, f), own, 4)
  {
    hide Present, FrameNo, Huge;
    forall p, i: nat | p in own && Depth(p) < 4 && i < Width(p) ensures Linked(Clear(m, f), own, p, i) {
      assert own[p] in own.Values;
      assert Linked(m, own, p, i);
    }
  }

  // ── The invariant of a life ────────────────────────────────────────────────

  /** Only pages of the anonymous window are mapped. */
  ghost predicate AnonOnly(own: Tree) {
    forall v: nat :: v < USER_END && P4(v) in own ==> ANON_BASE <= v / 4096 * 4096 < ANON_END
  }

  /** The frames of the space and the free frames are together the stock it started from, only
      anonymous pages are mapped, and the tables narrow no right. */
  ghost predicate Living(s: State, own: Tree, root: nat, stock: FreeSet) {
    Space(s, own, 4) && own[Root] == root && s.free + own.Values == stock && AnonOnly(own) && Open(s.mem, own)
  }

  lemma LivingSpace(s: State, own: Tree, root: nat, stock: FreeSet)
    requires Living(s, own, root, stock)
    ensures Space(s, own, 4) && own[Root] == root
    ensures forall p :: p in own ==> own[p] in stock && own[p] !in s.free
  {
  }

  lemma LivingRoot(s: State, own: Tree, root: nat, stock: FreeSet)
    requires Living(s, own, root, stock)
    ensures 0 < root < LIMIT
  {
  }

  // ── What a life leaves alone ───────────────────────────────────────────────

  /** Frames outside the stock and the kernel words of the root are as they were. */
  ghost predicate Kept(m: Mem, m': Mem, root: nat, stock: set<nat>) {
    root < LIMIT && SameExcept(m, m', stock) && KernelWordsKept(m, m', root)
  }

  /** The same since a memory whose kernel words the root was given. */
  ghost predicate Intact(m0: Mem, kernel: nat, m: Mem, root: nat, stock: set<nat>) {
    kernel < LIMIT && root < LIMIT && SameExcept(m0, m, stock) && KernelWordsCopied(m0, m, kernel, root)
  }

  lemma IntactKept(m0: Mem, kernel: nat, m: Mem, m': Mem, root: nat, stock: set<nat>)
    requires Intact(m0, kernel, m, root, stock) && Kept(m, m', root, stock)
    ensures Intact(m0, kernel, m', root, stock)
  {
  }

  /** The tables below the root that the walk of an address goes through. */
  function Through(m: Mem, root: nat, v: nat): set<nat>
    requires root < LIMIT
  {
    var e4 := m[root][I4(v)];
    if !Present(e4) then {}
    else {FrameNo(e4)} + ThroughFrom(m, FrameNo(e4), v)
  }

  function ThroughFrom(m: Mem, t3: nat, v: nat): set<nat> {
    if t3 >= LIMIT || !Present(m[t3][I3(v)]) then {}
    else
      var t2 := FrameNo(m[t3][I3(v)]);
      {t2} + if t2 >= LIMIT || !Present(m[t2][I2(v)]) then {} else {FrameNo(m[t2][I2(v)])}
  }

  /** A kernel-half address whose tables are the kernel's: neither free nor of the space. */
  ghost predicate Apart(m: Mem, root: nat, v: nat, stock: set<nat>) {
    root < LIMIT && !LowerHalf(v) && !LeafTable(m, root, v).Panicked? && Through(m, root, v) !! stock
  }

  /** Such an address is walked as before. */
  lemma ApartWalksAlike(m0: Mem, kernel: nat, m: Mem, root: nat, v: nat, stock: set<nat>)
    requires Intact(m0, kernel, m, root, stock) && Apart(m0, kernel, v, stock)
    ensures LeafTable(m, root, v) == LeafTable(m0, kernel, v) && Apart(m, root, v, stock)
  {
    hide Present, FrameNo, I1, I2, I3;
    var i := I4(v);
    assert m[root][256..][i - 256] == m0[kernel][256..][i - 256];
  }

  /** A page that can be unmapped without harm: the space's own to map, or not mapped. */
  ghost predicate Harmless(m: Mem, root: nat, v: nat, stock: set<nat>) {
    LowerHalf(v) || (Apart(m, root, v, stock) && LeafTable(m, root, v).Failed?)
  }

  ghost predicate HarmlessPages(m: Mem, root: nat, v: nat, end: nat, stock: set<nat>) {
    forall u: nat :: v <= u < end && u % 4096 == 0 ==> Harmless(m, root, u, stock)
  }

  lemma UserPage(v: nat)
    requires v < USER_END
    ensures LowerHalf(v) && Page(v) == v / 4096
  {
  }

  lemma PathPage(v: nat, w: nat)
    requires v < USER_END && w < USER_END && P4(v) == P4(w)
    ensures v / 4096 == w / 4096
  {
    UserPage(v);
    UserPage(w);
    SamePage(v, w);
  }

  lemma NewSpaceLives(s: State, kernelRoot: nat)
    requires s.free != {} && kernelRoot < LIMIT && kernelRoot !in s.free
    ensures var (r, s') := AllocRoot(s, kernelRoot);
            && r.Some? && Living(s', map[Root := r.value], r.value, s.free)
            && KernelWordsCopied(s.mem, s'.mem, kernelRoot, r.value)
            && SameExcept(s.mem, s'.mem, {r.value})
  {
  }

  ghost predicate KernelWordsCopied(m: Mem, m': Mem, kernelRoot: nat, root: nat)
    requires kernelRoot < LIMIT && root < LIMIT
  {
    m'[root][256..] == m[kernelRoot][256..]
  }

  /** The mirror window aliases nothing while only anonymous pages are mapped. */
  lemma NoMirror(s: State, own: Tree, root: nat, stock: FreeSet, page: nat)
    requires Living(s, own, root, stock) && MIRROR_BASE <= page < ANON_BASE
    ensures Walk(s.mem, root, page - MIRROR_BASE).None?
  {
    UserPage(page - MIRROR_BASE);
    WalkIsPage(s.mem, own, page - MIRROR_BASE);
  }

  /** A fault grows the tables first; the old pages stay in the tree. */
  lemma FaultGrows(s: State, root: nat, page: nat, own: Tree)
    returns (o: Outcome<nat>, mid: State, tab': Tree)
    requires s.free != {} && Space(s, own, 4) && own[Root] == root && LowerHalf(page)
    ensures (o, mid) == EnsureTables(Taken(s), root, 4, page)
    ensures !o.Panicked? && (o.Done? ==> P3(page) in tab' && tab'[P3(page)] == o.value < LIMIT)
    ensures IsTree(mid.mem, own + tab', 4) && Nodes(tab', 3)
    ensures Joined(own, tab', own + tab', s.free - {Least(s.free)})
    ensures Open(s.mem, own) ==> Open(mid.mem, own + tab')
    ensures mid.free == s.free - {Least(s.free)} - (own + tab').Values
  {
    var s1 := Taken(s);
    ClearKeeps(s.mem, own, Least(s.free));
    TablesTree(s1.mem, own);
    tab' := TablesOnTree(s1, root, 4, page, Tables(own));
    o, mid := EnsureTables(s1, root, 4, page).0, EnsureTables(s1, root, 4, page).1;
    Regrown(s1, mid, own, tab');
    if Open(s.mem, own) {
      ClearOpen(s.mem, own, Least(s.free));
      JoinedOpen(mid.mem, own, tab', s1.free);
    }
  }

  lemma ClearOpen(m: Mem, own: Tree, f: nat)
    requires Nodes(own, 4) && Open(m, own) && f < LIMIT && f !in own.Values
    ensures Open(Clear(m, f), own) && Open(Clear(m, f), Tables(own))
  {
    hide Wide;
    forall p | p in own ensures Clear(m, f)[own[p]] == m[own[p]] {
      assert own[p] in own.Values;
    }
  }

  lemma JoinedOpen(m: Mem, own: Tree, tab': Tree, free: set<nat>)
    requires Joined(own, tab', own + tab', free) && Open(m, tab')
    ensures Open(m, own + tab')
  {
    hide Wide;
    var all: Tree := own + tab';
    forall p, i: nat | p in all && all[p] < LIMIT && Depth(p) <= 2 && i < Width(p) && Child(p, i) in all
      ensures Wide(m[all[p]][i])
    {
      assert p in tab' && all[p] == tab'[p];
      assert Depth(Child(p, i)) <= 3 && Child(p, i) in tab';
    }
  }

  lemma JoinedValues(own: Tree, tab': Tree, free: set<nat>)
    requires Joined(own, tab', own + tab', free)
    ensures own.Values <= (own + tab').Values <= own.Values + free
  {
  }

  lemma UpdatedValues(own: Tree, p: Path, f: nat)
    requires p !in own
    ensures own[p := f].Values == own.Values + {f}
  {
    var own' := own[p := f];
    assert own'[p] == f;
    forall g | g in own.Values ensures g in own'.Values {
      var q :| q in own && own[q] == g;
      assert own'[q] == g;
    }
  }

  /** Growth of a living space, with one frame `f` taken aside. */
  ghost predicate Growing(mid: State, all: Tree, root: nat, f: nat, stock: FreeSet) {
    && Space(mid, all, 4) && all[Root] == root && AnonOnly(all) && Open(mid.mem, all)
    && f !in all.Values && f !in mid.free && mid.free + all.Values + {f} == stock
  }

  lemma FaultGrowing(s: State, root: nat, own: Tree, tab': Tree, mid: State, f: nat, stock: FreeSet)
    requires Living(s, own, root, stock) && f in s.free
    requires IsTree(mid.mem, own + tab', 4) && Nodes(tab', 3)
    requires Joined(own, tab', own + tab', s.free - {f})
    requires mid.free == s.free - {f} - (own + tab').Values && Open(mid.mem, own + tab')
    ensures Growing(mid, own + tab', root, f, stock)
  {
    hide IsTree, AnonOnly, Joined, Open;
    JoinedValues(own, tab', s.free - {f});
    AnonGrown(own, tab', s.free - {f});
    TreeNodes(s.mem, own, 4);
    JoinedRoot(own, tab', s.free - {f});
    GrowSets(own.Values, (own + tab').Values, s.free, f);
  }

  lemma JoinedRoot(own: Tree, tab': Tree, free: set<nat>)
    requires Joined(own, tab', own + tab', free) && Root in own
    ensures (own + tab')[Root] == own[Root]
  {
  }

  lemma GrowSets(a: set<nat>, b: set<nat>, free: set<nat>, f: nat)
    requires a !! free && f in free && a <= b <= a + (free - {f})
    ensures b !! free - {f} - b && f !in b && (free - {f} - b) + b + {f} == free + a
  {
  }

  lemma FaultDone(mid: State, all: Tree, root: nat, page: nat, f: nat, w: nat, s': State, stock: FreeSet)
    requires Growing(mid, all, root, f, stock)
    requires ANON_BASE <= page < ANON_END && page % 4096 == 0 && P4(page) !in all
    requires Present(w) && FrameNo(w) == f && LeafWritten(mid.mem, s'.mem, all, page, w) && s'.free == mid.free
    ensures Living(s', all[P4(page) := f], root, stock)
  {
    hide Open;
    AddPage(mid.mem, s'.mem, all, page, f, w);
    UpdatedValues(all, P4(page), f);
    AnonAdded(all, page, f);
    TreeNodes(mid.mem, all, 4);
    LeafWriteOpen(mid.mem, s'.mem, all, 4, page, w);
    PageAddedOpen(s'.mem, all, page, f);
  }

  /** Pages are not tables: a tree is as open with one more or one less. */
  lemma PageAddedOpen(m: Mem, own: Tree, v: nat, f: nat)
    requires Open(m, own)
    ensures Open(m, own[P4(v) := f]) && Open(m, own - {P4(v)})
  {
    hide Wide;
    PathDepths(v);
    var more: Tree := own[P4(v) := f];
    forall p, i: nat | p in more && more[p] < LIMIT && Depth(p) <= 2 && i < Width(p) && Child(p, i) in more
      ensures Wide(m[more[p]][i])
    {
      assert Depth(Child(p, i)) <= 3;
      assert p in own && own[p] == more[p] && Child(p, i) in own;
    }
  }

  lemma FaultFailed(mid: State, all: Tree, root: nat, f: nat, stock: FreeSet)
    requires Growing(mid, all, root, f, stock)
    ensures Living(FreeFrame(mid, f), all, root, stock)
  {
  }

  function AnonEntry(f: nat): (w: nat)
    requires f < LIMIT
    ensures Present(w) && FrameNo(w) == f && Writable(w) && !NoExecute(w)
  {
    EntryFields(f * 4096, UserFlags(true, true));
    Entry(f * 4096, UserFlags(true, true))
  }

  /** What the fault does once the table walk is known. */
  lemma FaultShape(s: State, root: nat, page: nat, o: Outcome<nat>, mid: State)
    requires s.free != {} && (o, mid) == EnsureTables(Taken(s), root, 4, page)
    requires !o.Panicked? && (o.Done? ==> o.value < LIMIT)
    ensures var f := Least(s.free);
            FaultIn(s, root, page) ==
            if o.Done? then (true, State(Write(mid.mem, o.value, I1(page), AnonEntry(f)), mid.free))
            else (false, FreeFrame(mid, f))
  {
  }

  /** A fault that finds frames adds exactly one page; one that does not adds none. Either
      way the stock is conserved. */
  lemma FaultKeeps(s: State, root: nat, page: nat, own: Tree, stock: FreeSet) returns (own': Tree)
    requires Living(s, own, root, stock) && s.free != {}
    requires ANON_BASE <= page < ANON_END && page % 4096 == 0 && Walk(s.mem, root, page).None?
    ensures var (b, s') := FaultIn(s, root, page);
            Living(s', own', root, stock) && (b ==> P4(page) in own')
  {
    UserPage(page);
    WalkIsPage(s.mem, own, page);
    var f := Least(s.free);
    var o, mid, tab' := FaultGrows(s, root, page, own);
    FaultGrowing(s, root, own, tab', mid, f, stock);
    own' := own + tab';
    FaultShape(s, root, page, o, mid);
    if o.Done? {
      PathDepths(page);
      assert own'[P3(page)] == o.value;
      var w := AnonEntry(f);
      FaultDone(mid, own', root, page, f, w, State(Write(mid.mem, o.value, I1(page), w), mid.free), stock);
      own' := own'[P4(page) := f];
    } else {
      FaultFailed(mid, own', root, f, stock);
    }
  }

  lemma AnonGrown(own: Tree, tab': Tree, free: set<nat>)
    requires AnonOnly(own) && Nodes(tab', 3) && Joined(own, tab', own + tab', free)
    ensures AnonOnly(own + tab')
  {
  }

  lemma AnonAdded(own: Tree, page: nat, f: nat)
    requires AnonOnly(own) && ANON_BASE <= page < ANON_END && page % 4096 == 0
    ensures AnonOnly(own[P4(page) := f])
  {
    forall v: nat | v < USER_END && P4(v) in own[P4(page) := f]
      ensures ANON_BASE <= v / 4096 * 4096 < ANON_END
    {
      if P4(v) == P4(page) { PathPage(v, page); }
    }
  }

  lemma DemandShape(s: State, root: nat, cr2: nat, error: nat)
    requires var page := cr2 / 4096 * 4096;
             MIRROR_BASE <= page < ANON_BASE ==> Walk(s.mem, root, page - MIRROR_BASE).None?
    ensures var page := cr2 / 4096 * 4096;
            var (b, s') := Demand(s, root, cr2, error);
            if error % 2 == 0 && ANON_BASE <= page < ANON_END && Walk(s.mem, root, page).None?
            then (b, s') == FaultIn(s, root, page) && (s.free == {} ==> !b && s' == s)
            else s' == s && (b ==> Walk(s.mem, root, page).Some?)
  {
  }

  /** Every fault keeps the invariant; a resolved anonymous fault leaves its page mapped. */
  lemma DemandKeeps(s: State, root: nat, cr2: nat, error: nat, own: Tree, stock: FreeSet) returns (own': Tree)
    requires Living(s, own, root, stock)
    ensures var (b, s') := Demand(s, root, cr2, error);
            var page := cr2 / 4096 * 4096;
            Living(s', own', root, stock) && (b && ANON_BASE <= page < ANON_END ==> P4(page) in own')
  {
    hide Walk, IsTree, AnonOnly, Demand, FaultIn, Open, LowerHalf, Present, FrameNo;
    var page := cr2 / 4096 * 4096;
    own' := own;
    if MIRROR_BASE <= page < ANON_BASE {
      NoMirror(s, own, root, stock, page);
    }
    DemandShape(s, root, cr2, error);
    if ANON_BASE <= page < ANON_END {
      UserPage(page);
      WalkIsPage(s.mem, own, page);
      if error % 2 == 0 && Walk(s.mem, root, page).None? {
        if s.free != {} {
          own' := FaultKeeps(s, root, page, own, stock);
        }
      }
    }
  }

  /** A fault writes frames of the stock only, and no kernel word. */
  lemma FaultStays(s: State, root: nat, page: nat, own: Tree, stock: FreeSet)
    requires Living(s, own, root, stock) && s.free != {} && LowerHalf(page)
    ensures Kept(s.mem, FaultIn(s, root, page).1.mem, root, stock)
  {
    hide IsTree, AnonOnly, MapPageIn, WalksBut, LowerHalf, Nodes;
    LivingRoot(s, own, root, stock);
    var f, s1 := Least(s.free), Taken(s);
    ClearKeeps(s.mem, own, f);
    TablesTree(s1.mem, own);
    TreeNodes(s.mem, own, 4);
    var tab' := MapRefinesFlatMap(s1, root, page, f * 4096, UserFlags(true, true), Tables(own));
    assert own[Root] in own.Values;
    forall g | g in tab'.Values ensures g in stock {
      var q :| q in tab' && tab'[q] == g;
      assert q in Tables(own) ==> Tables(own)[q] in Tables(own).Values;
    }
  }

  lemma DemandStays(s: State, root: nat, cr2: nat, error: nat, own: Tree, stock: FreeSet)
    requires Living(s, own, root, stock)
    ensures Kept(s.mem, Demand(s, root, cr2, error).1.mem, root, stock)
  {
    hide Walk, IsTree, AnonOnly, Demand, FaultIn, Living;
    var page := cr2 / 4096 * 4096;
    if MIRROR_BASE <= page < ANON_BASE {
      NoMirror(s, own, root, stock, page);
    }
    DemandShape(s, root, cr2, error);
    LivingRoot(s, own, root, stock);
    NothingMoved(s.mem, root, stock);
    if error % 2 == 0 && ANON_BASE <= page < ANON_END && Walk(s.mem, root, page).None? && s.free != {} {
      UserPage(page);
      FaultStays(s, root, page, own, stock);
    }
  }

  // ── What a fault grants ────────────────────────────────────────────────────

  lemma ClearGrants(m: Mem, own: Tree, f: nat, v: nat)
    requires IsTree(m, own, 4) && Open(m, own) && f < LIMIT && f !in own.Values && LowerHalf(v)
    ensures Walk(Clear(m, f), own[Root], v) == Walk(m, own[Root], v) && Hw(Clear(m, f), own[Root], v) == Hw(m, own[Root], v)
  {
    hide IsTree, Open, Walk, Hw, Present;
    ClearKeeps(m, own, f);
    TreeNodes(m, own, 4);
    ClearOpen(m, own, f);
    WalkOnTree(m, own, 4, v);
    WalkOnTree(Clear(m, f), own, 4, v);
    HwIsLeaf(m, own, 4, v);
    HwIsLeaf(Clear(m, f), own, 4, v);
    if P3(v) in own { assert own[P3(v)] in own.Values; }
  }

  /** A fault that is resolved by a new frame grants the process that frame at the page, to read,
      write and execute, and the frame holds zeros. No other access moves, whether it is resolved
      or not. */
  lemma FaultGrants(s: State, root: nat, page: nat, own: Tree, stock: FreeSet)
    requires Living(s, own, root, stock) && s.free != {} && LowerHalf(page)
    ensures var (b, s') := FaultIn(s, root, page);
            var f := Least(s.free);
            && f < LIMIT && GrantsBut(s.mem, s'.mem, root, page, b, Some(Access(f, true, true, true)))
            && (b ==> s'.mem[f] == ZeroTable())
  {
    hide IsTree, AnonOnly, MapPageIn, WalksBut, LowerHalf, Nodes, Open, Hw, Page;
    LivingRoot(s, own, root, stock);
    var f, s1 := Least(s.free), Taken(s);
    ClearKeeps(s.mem, own, f);
    TablesTree(s1.mem, own);
    TreeNodes(s.mem, own, 4);
    ClearOpen(s.mem, own, f);
    TablesRoot(own);
    MapGrants(s1, root, page, f * 4096, true, true, Tables(own));
    var tab' := MapRefinesFlatMap(s1, root, page, f * 4096, UserFlags(true, true), Tables(own));
    FrameAlone(f);
    var (b, s') := FaultIn(s, root, page);
    forall v: nat | LowerHalf(v)
      ensures Hw(s'.mem, root, v) == (if b && Page(v) == Page(page) then Some(Access(f, true, true, true)) else Hw(s.mem, root, v))
    {
      ClearGrants(s.mem, own, f, v);
    }
    NotATable(own, tab', s1.free, f);
  }

  lemma TablesRoot(own: Tree)
    requires Nodes(own, 4)
    ensures Tables(own)[Root] == own[Root]
  {
  }

  lemma FrameAlone(f: nat)
    requires f < LIMIT
    ensures f * 4096 / 0x1000 % 0x100_0000_0000 == f
  {
  }

  lemma NotATable(own: Tree, tab': Tree, free: set<nat>, f: nat)
    requires f !in own.Values && f !in free
    requires forall q :: q in tab' && q !in Tables(own) ==> tab'[q] in free
    requires forall q :: q in Tables(own) ==> q in tab' && tab'[q] == Tables(own)[q]
    ensures f !in tab'.Values
  {
    forall q | q in tab' ensures tab'[q] != f {
      if q in Tables(own) { assert own[q] in own.Values; }
    }
  }

  /** A fault in the anonymous window, as the process sees it: a fault on a present page is refused,
      one on a page that is there by now is resolved without change, and any other is resolved,
      if frames allow, by a new zeroed frame that the process may read, write and execute. */
  lemma DemandGrants(s: State, root: nat, cr2: nat, error: nat, own: Tree, stock: FreeSet)
    requires Living(s, own, root, stock) && 0x3_0000_0000 <= cr2 / 4096 * 4096 < 0x100_0000_0000
    ensures var (b, s') := Demand(s, root, cr2, error);
            var page := cr2 / 4096 * 4096;
            if error % 2 == 1 then !b && s' == s
            else if Hw(s.mem, root, page).Some? then b && s' == s
            else if s.free == {} then !b && s' == s
            else
              var f := Least(s.free);
              && f < LIMIT && GrantsBut(s.mem, s'.mem, root, page, b, Some(Access(f, true, true, true)))
              && (b ==> s'.mem[f] == ZeroTable())
  {
    hide Walk, IsTree, AnonOnly, Demand, FaultIn, Open, Hw, GrantsBut, Rights, LowerHalf;
    var page := cr2 / 4096 * 4096;
    DemandShape(s, root, cr2, error);
    DemandRefuses(s, root, cr2, error);
    UserPage(page);
    HwIsLeaf(s.mem, own, 4, page);
    if s.free != {} {
      FaultGrants(s, root, page, own, stock);
    }
  }

  /** A fault on a present page is refused, one on a page that is there by now is resolved without
      change, and one outside both windows, or in the mirror window with nothing to mirror, is
      refused. */
  lemma DemandRefuses(s: State, root: nat, cr2: nat, error: nat)
    ensures error % 2 == 1 ==> Demand(s, root, cr2, error) == (false, s)
    ensures error % 2 == 0 && Walk(s.mem, root, cr2 / 4096 * 4096).Some? ==> Demand(s, root, cr2, error) == (true, s)
    ensures var page := cr2 / 4096 * 4096;
            Walk(s.mem, root, page).None? && (page < 0x1_0000_0000 || page >= 0x100_0000_0000
                || (page < 0x3_0000_0000 && Walk(s.mem, root, page - 0x1_0000_0000).None?))
            ==> Demand(s, root, cr2, error) == (false, s)
  {
    hide Walk, FaultIn, MapPageIn;
  }

  /** A fault in the mirror window on a page whose mirrored page is mapped is resolved exactly when
      there is a frame for each missing table, and then grants the frame of the mirrored page with
      that page's own rights. */
  lemma MirrorGrants(s: State, root: nat, cr2: nat, error: nat, own: Tree)
    requires Space(s, own, 3) && own[Root] == root && Open(s.mem, own)
    requires error % 2 == 0 && 0x1_0000_0000 <= cr2 / 4096 * 4096 < 0x3_0000_0000
    requires var page := cr2 / 4096 * 4096;
             Hw(s.mem, root, page).None? && Hw(s.mem, root, page - 0x1_0000_0000).Some?
    ensures var (b, s') := Demand(s, root, cr2, error);
            var page := cr2 / 4096 * 4096;
            var target := Hw(s.mem, root, page - 0x1_0000_0000).value;
            GrantsBut(s.mem, s'.mem, root, page, b, Some(target.(user := true)))
    ensures var page := cr2 / 4096 * 4096;
            var p1 := Child(Root, I4(page));
            var p2 := Child(p1, I3(page));
            var p3 := Child(p2, I2(page));
            Demand(s, root, cr2, error).0 <==>
            |s.free| >= (if p1 in own then 0 else 1) + (if p2 in own then 0 else 1) + (if p3 in own then 0 else 1)
  {
    hide Walk, IsTree, Open, Hw, GrantsBut, LowerHalf, MapPageIn, FaultIn, Nodes;
    TreeNodes(s.mem, own, 3);
    var page := cr2 / 4096 * 4096;
    UserPage(page);
    UserPage(page - MIRROR_BASE);
    HwIsLeaf(s.mem, own, 3, page);
    HwIsLeaf(s.mem, own, 3, page - MIRROR_BASE);
    var w := Walk(s.mem, root, page - MIRROR_BASE).value;
    MapGrants(s, root, page, PhysOf(w), Writable(w), !NoExecute(w), own);
    MapSucceeds(s, root, page, PhysOf(w), UserFlags(Writable(w), !NoExecute(w)), own);
    FrameOfWord(w);
  }

  lemma FrameOfWord(w: nat)
    ensures PhysOf(w) / 0x1000 % 0x100_0000_0000 == w / 0x1000 % 0x100_0000_0000
  {
  }

  lemma RemovedValues(own: Tree, p: Path)
    requires p in own && forall q :: q in own && own[q] == own[p] ==> q == p
    ensures (own - {p}).Values == own.Values - {own[p]}
  {
    var own' := own - {p};
    forall g | g in own.Values && g != own[p] ensures g in own'.Values {
      var q :| q in own && own[q] == g;
      assert own'[q] == g;
    }
    forall g | g in own'.Values ensures g in own.Values && g != own[p] {
      var q :| q in own' && own'[q] == g;
      assert own[q] == g;
    }
  }

  lemma AnonRemoved(own: Tree, p: Path)
    requires AnonOnly(own)
    ensures AnonOnly(own - {p})
  {
  }

  lemma PageRemoved(s: State, own: Tree, root: nat, v: nat, m': Mem, stock: FreeSet)
    requires Living(s, own, root, stock) && P4(v) in own && LeafWritten(s.mem, m', own, v, 0)
    ensures Living(FreeFrame(s.(mem := m'), own[P4(v)]), own - {P4(v)}, root, stock)
  {
    hide IsTree, Present, FrameNo, Huge, Open;
    RemovePage(s.mem, m', own, v);
    TreeNodes(s.mem, own, 4);
    LeafWriteOpen(s.mem, m', own, 4, v, 0);
    PageAddedOpen(m', own, v, 0);
    RemovedValues(own, P4(v));
    AnonRemoved(own, P4(v));
    assert own[P4(v)] in own.Values && own[P4(v)] in stock;
    var s' := FreeFrame(s.(mem := m'), own[P4(v)]);
    assert s'.free == s.free + {own[P4(v)]};
  }

  lemma UnmapOneShape(s: State, own: Tree, root: nat, v: nat)
    requires Space(s, own, 4) && own[Root] == root && LowerHalf(v)
    ensures var m' := UnmapPage(s.mem, root, v).1;
            if P4(v) in own then
              && LeafWritten(s.mem, m', own, v, 0)
              && UnmapPage(s.mem, root, v).0 == Done(own[P4(v)] * 4096)
              && UnmapOne(s, root, v) == Some(FreeFrame(s.(mem := m'), own[P4(v)]))
            else UnmapPage(s.mem, root, v) == (Failed, s.mem) && UnmapOne(s, root, v) == Some(s)
  {
    hide UnmapPage, UnmapOne, Walk, IsTree, Nodes, WalksBut, SameExcept, KernelWordsKept, FreeFrame, FrameNo, LowerHalf,
         Tables, P3, P4, I1;
    WalkIsPage(s.mem, own, v);
    TreeNodes(s.mem, own, 4);
    TablesTree(s.mem, own);
    TablesRoot(own);
    LeafInTables(own, v);
    UnmapOnTree(s.mem, root, v, Tables(own));
    UnmapOneIs(s, root, v, if P4(v) in own then own[P4(v)] else 0);
  }

  lemma UnmapOneIs(s: State, root: nat, v: nat, f: nat)
    ensures var (o, m') := UnmapPage(s.mem, root, v);
            && (o == Done(f * 4096) ==> UnmapOne(s, root, v) == Some(FreeFrame(s.(mem := m'), f)))
            && (o.Failed? ==> UnmapOne(s, root, v) == Some(s))
  {
    hide UnmapPage, FreeFrame;
  }

  lemma LeafInTables(own: Tree, v: nat)
    requires Nodes(own, 4)
    ensures P3(v) in Tables(own) <==> P3(v) in own
    ensures P3(v) in own ==> Tables(own)[P3(v)] == own[P3(v)]
    ensures P4(v) in own ==> P3(v) in own
  {
    PathDepths(v);
  }

  /** One page of a range: unmapped and freed if it was mapped, else untouched. */
  lemma UnmapUserKeeps(s: State, own: Tree, root: nat, v: nat, stock: FreeSet) returns (own': Tree)
    requires Living(s, own, root, stock) && LowerHalf(v)
    ensures var s' := UnmapOne(s, root, v);
            && s'.Some? && own' == own - {P4(v)} && Living(s'.value, own', root, stock)
            && Kept(s.mem, s'.value.mem, root, stock)
  {
    hide UnmapOne, UnmapPage, IsTree, AnonOnly, SameExcept, Nodes;
    UnmapOneShape(s, own, root, v);
    LivingRoot(s, own, root, stock);
    own' := own - {P4(v)};
    if P4(v) in own {
      var m' := UnmapPage(s.mem, root, v).1;
      PageRemoved(s, own, root, v, m', stock);
      TreeNodes(s.mem, own, 4);
      LeafWriteKept(s.mem, m', own, v, 0, stock);
    } else {
      assert own' == own;
      NothingMoved(s.mem, root, stock);
    }
  }

  lemma NothingMoved(m: Mem, root: nat, stock: set<nat>)
    requires root < LIMIT
    ensures Kept(m, m, root, stock)
  {
  }

  lemma LeafWriteKept(m: Mem, m': Mem, own: Tree, v: nat, w: nat, stock: set<nat>)
    requires Nodes(own, 4) && LeafWritten(m, m', own, v, w) && own.Values <= stock
    ensures Kept(m, m', own[Root], stock)
  {
    assert own[P3(v)] in own.Values;
  }

  lemma UnmapOneKeeps(s: State, own: Tree, root: nat, v: nat, stock: FreeSet, m0: Mem, kernel: nat) returns (own': Tree)
    requires Living(s, own, root, stock) && Intact(m0, kernel, s.mem, root, stock) && Harmless(m0, kernel, v, stock)
    ensures var s' := UnmapOne(s, root, v);
            && s'.Some? && Living(s'.value, own', root, stock)
            && Intact(m0, kernel, s'.value.mem, root, stock)
  {
    hide Living, Intact, Kept, Apart, LeafTable, LowerHalf;
    own' := own;
    if LowerHalf(v) {
      own' := UnmapUserKeeps(s, own, root, v, stock);
      IntactKept(m0, kernel, s.mem, UnmapOne(s, root, v).value.mem, root, stock);
    } else {
      ApartWalksAlike(m0, kernel, s.mem, root, v, stock);
    }
  }

  lemma {:induction false} UnmapKeeps(s: State, root: nat, v: nat, end: nat, own: Tree, stock: FreeSet,
                                      m0: Mem, kernel: nat) returns (own': Tree)
    requires Living(s, own, root, stock) && Intact(m0, kernel, s.mem, root, stock)
    requires v % 4096 == 0 && HarmlessPages(m0, kernel, v, end, stock)
    ensures var s' := UnmapPages(s, root, v, end);
            Living(s', own', root, stock) && Intact(m0, kernel, s'.mem, root, stock)
    decreases end - v
  {
    hide Living, UnmapOne, Intact, Harmless;
    own' := own;
    if v < end {
      own' := UnmapOneKeeps(s, own, root, v, stock, m0, kernel);
      own' := UnmapKeeps(UnmapOne(s, root, v).value, root, v + 4096, end, own', stock, m0, kernel);
    }
  }

  // ── What a range takes away ────────────────────────────────────────────────

  /** The page of an address is one of the range's. */
  ghost predicate InPages(u: nat, v: nat, end: nat) {
    exists p: nat :: v <= p < end && p % 4096 == 0 && Page(p) == Page(u)
  }

  lemma InPagesStep(u: nat, v: nat, end: nat)
    requires v % 4096 == 0 && v < end
    ensures InPages(u, v, end) <==> Page(v) == Page(u) || InPages(u, v + 4096, end)
  {
    hide Page;
    if InPages(u, v, end) && Page(v) != Page(u) {
      var p: nat :| v <= p < end && p % 4096 == 0 && Page(p) == Page(u);
      assert p >= v + 4096;
    }
  }

  /** The frame an address is mapped to. */
  function FrameAt(m: Mem, root: nat, v: nat): set<nat> {
    match Walk(m, root, v)
    case None => {}
    case Some(w) => {FrameNo(w)}
  }

  lemma UserPageGoes(s: State, own: Tree, root: nat, v: nat, stock: FreeSet)
    requires Living(s, own, root, stock) && LowerHalf(v)
    ensures var s' := UnmapOne(s, root, v);
            && s'.Some? && WalksBut(s.mem, s'.value.mem, root, v, true, None)
            && s'.value.free == s.free + FrameAt(s.mem, root, v)
  {
    hide IsTree, Walk, LowerHalf, Open, AnonOnly, Nodes, FrameNo, Page, UnmapPage, UnmapOne;
    LivingSpace(s, own, root, stock);
    TreeNodes(s.mem, own, 4);
    UnmapOneShape(s, own, root, v);
    WalkIsPage(s.mem, own, v);
    TablesTree(s.mem, own);
    TablesRoot(own);
    UnmapOnTree(s.mem, root, v, Tables(own));
    if P4(v) in own {
      FreeStays(s, UnmapPage(s.mem, root, v).1, own[P4(v)]);
    } else {
      NothingThere(s.mem, root, v);
    }
  }

  lemma FreeStays(s: State, m': Mem, f: nat)
    requires 256 <= f < 0x10_0000
    ensures FreeFrame(s.(mem := m'), f) == State(m', s.free + {f})
  {
  }

  lemma NothingThere(m: Mem, root: nat, v: nat)
    requires Walk(m, root, v).None?
    ensures WalksBut(m, m, root, v, true, None)
  {
    forall u: nat | LowerHalf(u) && Page(u) == Page(v) ensures Walk(m, root, u).None? {
      SamePage(u, v);
    }
  }

  lemma KernelPageStays(s: State, root: nat, v: nat, stock: FreeSet, m0: Mem, kernel: nat)
    requires Intact(m0, kernel, s.mem, root, stock) && Harmless(m0, kernel, v, stock) && !LowerHalf(v)
    ensures UnmapOne(s, root, v) == Some(s)
  {
    hide Intact, Apart, LeafTable, LowerHalf;
    ApartWalksAlike(m0, kernel, s.mem, root, v, stock);
  }

  /** The frames the user pages of a range are mapped to. */
  ghost predicate FrameInPages(m: Mem, root: nat, v: nat, end: nat, f: nat) {
    exists p: nat :: v <= p < end && p % 4096 == 0 && LowerHalf(p) && f in FrameAt(m, root, p)
  }

  ghost predicate RangeGone(s: State, s': State, root: nat, v: nat, end: nat) {
    && (forall u: nat :: LowerHalf(u) ==>
          Walk(s'.mem, root, u) == if InPages(u, v, end) then None else Walk(s.mem, root, u))
    && (forall f: nat :: f in s'.free <==> f in s.free || FrameInPages(s.mem, root, v, end, f))
  }

  lemma RangeGoneStep(s: State, s1: State, s': State, root: nat, v: nat, end: nat)
    requires v % 4096 == 0 && v < end && RangeGone(s1, s', root, v + 4096, end)
    requires if LowerHalf(v) then WalksBut(s.mem, s1.mem, root, v, true, None) && s1.free == s.free + FrameAt(s.mem, root, v)
             else s1 == s
    ensures RangeGone(s, s', root, v, end)
  {
    hide Walk, Page, LowerHalf, InPages, FrameInPages, FrameNo;
    forall u: nat | LowerHalf(u)
      ensures Walk(s'.mem, root, u) == if InPages(u, v, end) then None else Walk(s.mem, root, u)
    {
      InPagesStep(u, v, end);
      if Page(u) == Page(v) { SameHalf(u, v); }
    }
    forall f: nat ensures f in s'.free <==> f in s.free || FrameInPages(s.mem, root, v, end, f) {
      FrameInPagesStep(s, s1, root, v, end, f);
    }
  }

  lemma SameHalf(u: nat, v: nat)
    requires Page(u) == Page(v)
    ensures LowerHalf(u) <==> LowerHalf(v)
  {
    SamePage(u, v);
  }

  lemma FrameInPagesStep(s: State, s1: State, root: nat, v: nat, end: nat, f: nat)
    requires v % 4096 == 0 && v < end
    requires if LowerHalf(v) then WalksBut(s.mem, s1.mem, root, v, true, None) && s1.free == s.free + FrameAt(s.mem, root, v)
             else s1 == s
    ensures f in s.free || FrameInPages(s.mem, root, v, end, f) <==>
              f in s1.free || FrameInPages(s1.mem, root, v + 4096, end, f)
  {
    hide Walk, Page, LowerHalf, FrameNo;
    if FrameInPages(s.mem, root, v, end, f) {
      var p: nat :| v <= p < end && p % 4096 == 0 && LowerHalf(p) && f in FrameAt(s.mem, root, p);
      if p == v {
      } else if LowerHalf(v) && Page(p) == Page(v) {
        assert Walk(s.mem, root, p) == Walk(s.mem, root, v) by { SameWalk(s.mem, root, p, v); }
      } else {
        assert v + 4096 <= p && f in FrameAt(s1.mem, root, p);
      }
    }
    if FrameInPages(s1.mem, root, v + 4096, end, f) {
      var p: nat :| v + 4096 <= p < end && p % 4096 == 0 && LowerHalf(p) && f in FrameAt(s1.mem, root, p);
      assert f in FrameAt(s.mem, root, p);
    }
    if LowerHalf(v) && f in FrameAt(s.mem, root, v) {
      assert FrameInPages(s.mem, root, v, end, f);
    }
  }

  lemma SameWalk(m: Mem, root: nat, u: nat, v: nat)
    requires Page(u) == Page(v)
    ensures Walk(m, root, u) == Walk(m, root, v)
  {
    SamePage(u, v);
  }

  lemma {:induction false} PagesGo(s: State, root: nat, v: nat, end: nat, own: Tree, stock: FreeSet, m0: Mem, kernel: nat)
    requires Living(s, own, root, stock) && Intact(m0, kernel, s.mem, root, stock)
    requires v % 4096 == 0 && HarmlessPages(m0, kernel, v, end, stock)
    ensures RangeGone(s, UnmapPages(s, root, v, end), root, v, end)
    decreases end - v
  {
    hide Living, UnmapOne, Intact, Harmless, LowerHalf, RangeGone, WalksBut, FrameAt;
    if v >= end {
      NothingGone(s, root, v, end);
    } else {
      var own' := UnmapOneKeeps(s, own, root, v, stock, m0, kernel);
      var s1 := UnmapOne(s, root, v).value;
      PagesGo(s1, root, v + 4096, end, own', stock, m0, kernel);
      if LowerHalf(v) {
        UserPageGoes(s, own, root, v, stock);
      } else {
        KernelPageStays(s, root, v, stock, m0, kernel);
      }
      RangeGoneStep(s, s1, UnmapPages(s1, root, v + 4096, end), root, v, end);
    }
  }

  lemma NothingGone(s: State, root: nat, v: nat, end: nat)
    requires v >= end
    ensures RangeGone(s, s, root, v, end)
  {
  }

  /** Unmapping a range unmaps every user page of it and no other, and frees exactly the frames
      those pages were mapped to. */
  lemma RangeUnmaps(s: State, root: nat, start: nat, size: nat, own: Tree, stock: FreeSet, m0: Mem, kernel: nat)
    requires Living(s, own, root, stock) && Intact(m0, kernel, s.mem, root, stock) && size > 0
    requires HarmlessPages(m0, kernel, FirstPage(start), EndPage(start, size), stock)
    ensures var s' := UnmapRange(s, root, start, size);
            && (forall u: nat :: LowerHalf(u) ==>
                  Walk(s'.mem, root, u) ==
                  if InPages(u, FirstPage(start), EndPage(start, size)) then None else Walk(s.mem, root, u))
            && (forall f: nat :: f in s'.free <==>
                  f in s.free || FrameInPages(s.mem, root, FirstPage(start), EndPage(start, size), f))
  {
    hide Living, Intact, HarmlessPages, UnmapPages, InPages, FrameInPages, Walk;
    LivingRoot(s, own, root, stock);
    PagesGo(s, root, FirstPage(start), EndPage(start, size), own, stock, m0, kernel);
  }

  /** An empty range, and one whose rounded end wraps past its start, unmap nothing. */
  lemma NoPages(s: State, root: nat, start: nat, size: nat)
    requires start < 0x1_0000_0000_0000_0000
    requires size == 0 || (size + 4095 < 0x1_0000_0000_0000_0000 <= start + size + 4095)
    ensures UnmapRange(s, root, start, size) == s
  {
    if size > 0 {
      assert (start + size + 4095) % U64 == start + size + 4095 - U64;
    }
  }

  /** The pages of a range are those of its bytes: an address at or above the first byte's page and
      below the last byte's page end, when the range does not wrap. */
  lemma RangePages(start: nat, size: nat, u: nat)
    requires size > 0 && start + size + 4095 < USER_END && u < USER_END
    ensures InPages(u, FirstPage(start), EndPage(start, size)) <==> start / 4096 <= u / 4096 <= (start + size - 1) / 4096
  {
    hide Page, LowerHalf;
    var first, end := FirstPage(start), EndPage(start, size);
    if InPages(u, first, end) {
      var p: nat :| first <= p < end && p % 4096 == 0 && Page(p) == Page(u);
      UserPage(p);
      UserPage(u);
    }
    if start / 4096 <= u / 4096 <= (start + size - 1) / 4096 {
      UserPage(u);
      var p := u / 4096 * 4096;
      UserPage(p);
      assert first <= p < end && p % 4096 == 0 && Page(p) == Page(u);
    }
  }

  /** A fault in the anonymous window that is not a protection fault is resolved if and only if
      the page is there or there is a frame for it and for each of its tables that is missing; so
      four free frames are always enough. */
  lemma DemandResolves(s: State, root: nat, cr2: nat, error: nat, own: Tree, stock: FreeSet)
    requires Living(s, own, root, stock) && error % 2 == 0
    requires 0x3_0000_0000 <= cr2 / 4096 * 4096 < 0x100_0000_0000
    ensures var page := cr2 / 4096 * 4096;
            var p1 := Child(Root, I4(page));
            var p2 := Child(p1, I3(page));
            var p3 := Child(p2, I2(page));
            var missing := (if p1 in own then 0 else 1) + (if p2 in own then 0 else 1) + (if p3 in own then 0 else 1);
            Demand(s, root, cr2, error).0 <==> Walk(s.mem, root, page).Some? || |s.free| > missing
  {
    hide Walk, IsTree, AnonOnly, EnsureTables, FaultIn, Demand, Open, LowerHalf, Joined, Nodes, Missing;
    var page := cr2 / 4096 * 4096;
    LivingSpace(s, own, root, stock);
    UserPage(page);
    DemandShape(s, root, cr2, error);
    DemandRefuses(s, root, cr2, error);
    MissingAll(own, page);
    if Walk(s.mem, root, page).None? && s.free != {} {
      var o, mid, tab' := FaultGrows(s, root, page, own);
      FaultEnough(s, root, page, own);
      FaultShape(s, root, page, o, mid);
    } else if s.free == {} {
      NoFrame(s, root, page);
    }
  }

  lemma NoFrame(s: State, root: nat, page: nat)
    requires s.free == {}
    ensures FaultIn(s, root, page) == (false, s)
  {
  }

  lemma FaultEnough(s: State, root: nat, page: nat, own: Tree)
    requires s.free != {} && Space(s, own, 4) && own[Root] == root && LowerHalf(page)
    ensures EnsureTables(Taken(s), root, 4, page).0.Done? <==> |s.free| > Missing(own, 4, page)
  {
    hide EnsureTables, LowerHalf, Missing, IsTree;
    TreeNodes(s.mem, own, 4);
    var s1 := Taken(s);
    ClearKeeps(s.mem, own, Least(s.free));
    TablesTree(s1.mem, own);
    TablesRoot(own);
    assert |s1.free| == |s.free| - 1;
    EnsureSucceeds(s1, root, 4, page, Tables(own));
    TablePathDepths(page);
    MissingKept(own, Tables(own), 4, page);
  }

  lemma TablePathDepths(v: nat)
    ensures forall j :: 1 <= j <= 4 ==> Depth(TablePath(j, v)) <= 3
  {
    hide TablePath;
    forall j | 1 <= j <= 4 ensures Depth(TablePath(j, v)) <= 3 {
      TablePathDepth(j, v);
    }
  }

  // ── Teardown ───────────────────────────────────────────────────────────────

  ghost predicate Below(q: Path, p: Path) {
    q == p || (q.Child? && Below(q.parent, p))
  }

  /** `q` hangs below one of the first `n` entries of `p`. */
  ghost predicate BelowFirst(q: Path, p: Path, n: nat) {
    q.Child? && ((q.parent == p && q.index < n) || BelowFirst(q.parent, p, n))
  }

  ghost function FramesFirst(own: Tree, p: Path, n: nat): set<nat> {
    set q | q in own && BelowFirst(q, p, n) :: own[q]
  }

  lemma {:induction false} BelowDepth(q: Path, p: Path)
    requires Below(q, p)
    ensures Depth(q) >= Depth(p) && (Depth(q) == Depth(p) ==> q == p)
  {
    if q != p { BelowDepth(q.parent, p); }
  }

  lemma {:induction false} BelowFirstStep(q: Path, p: Path, n: nat)
    requires n > 0
    ensures BelowFirst(q, p, n) <==> BelowFirst(q, p, n - 1) || Below(q, Child(p, n - 1))
  {
    if q.Child? && !(q.parent == p && q.index < n) {
      BelowFirstStep(q.parent, p, n);
    } else if q.Child? && q.index == n - 1 {
      assert q == Child(p, n - 1);
    }
  }

  /** Everything below a node of the tree is below one of its entries. */
  lemma {:induction false} BelowIsFirst(own: Tree, d: nat, q: Path, p: Path)
    requires Nodes(own, d) && q in own
    ensures Below(q, p) <==> q == p || BelowFirst(q, p, Width(p))
  {
    if q.Child? { BelowIsFirst(own, d, q.parent, p); }
  }

  lemma {:induction false} BelowPresent(own: Tree, d: nat, q: Path, p: Path)
    requires Nodes(own, d) && q in own && Below(q, p)
    ensures p in own
  {
    if q != p { BelowPresent(own, d, q.parent, p); }
  }

  ghost function FramesBelow(own: Tree, p: Path): set<nat> {
    set q | q in own && Below(q, p) :: own[q]
  }

  lemma BelowAbsent(own: Tree, c: Path)
    requires Nodes(own, 4) && c !in own
    ensures FramesBelow(own, c) == {}
  {
    forall q | q in own ensures !Below(q, c) {
      if Below(q, c) { BelowPresent(own, 4, q, c); }
    }
  }

  lemma BelowPage(own: Tree, c: Path)
    requires Nodes(own, 4) && c in own && Depth(c) == 4
    ensures FramesBelow(own, c) == {own[c]}
  {
    forall q | q in own && Below(q, c) ensures q == c { BelowDepth(q, c); }
  }

  lemma BelowTable(own: Tree, c: Path)
    requires Nodes(own, 4) && c in own
    ensures FramesBelow(own, c) == FramesFirst(own, c, Width(c)) + {own[c]} && own[c] !in FramesFirst(own, c, Width(c))
  {
    forall q | q in own ensures Below(q, c) <==> q == c || BelowFirst(q, c, Width(c)) {
      BelowIsFirst(own, 4, q, c);
    }
    FirstDeeper(c, c, Width(c));
  }

  lemma {:induction false} FirstDeeper(q: Path, p: Path, n: nat)
    ensures BelowFirst(q, p, n) ==> Depth(q) > Depth(p)
  {
    if q.Child? { FirstDeeper(q.parent, p, n); }
  }

  /** What hangs below one entry hangs below no other. */
  lemma {:induction false} EntriesApart(q: Path, p: Path, n: nat)
    requires BelowFirst(q, p, n)
    ensures !Below(q, Child(p, n))
  {
    FirstDeeper(p, p, n);
    if Below(q, Child(p, n)) {
      BelowDepth(q, Child(p, n));
      if q != Child(p, n) && q.parent != p {
        EntriesApart(q.parent, p, n);
      } else if q != Child(p, n) {
        BelowDepth(p, Child(p, n));
      }
    }
  }

  lemma FramesApart(own: Tree, p: Path, n: nat)
    requires Nodes(own, 4)
    ensures FramesFirst(own, p, n) !! FramesBelow(own, Child(p, n))
  {
    forall q | q in own && BelowFirst(q, p, n) ensures own[q] !in FramesBelow(own, Child(p, n)) {
      EntriesApart(q, p, n);
    }
  }

  /** The frames freed for one entry are the frames that hang below it. */
  lemma {:induction false} FreedOne(m: Mem, own: Tree, p: Path, i: nat)
    requires IsTree(m, own, 4) && p in own && Depth(p) <= 3 && i < Width(p)
    ensures FreedEntry(m, m[own[p]][i], Depth(p)) == FramesBelow(own, Child(p, i))
    ensures EntryFrees(m, m[own[p]][i], Depth(p)) == |FramesBelow(own, Child(p, i))|
    decreases 4 - Depth(p), 0
  {
    hide FramesBelow, FramesFirst, FreedEntries, TableFrees, IsTree, Nodes, Present, FrameNo, Huge;
    var c := Child(p, i);
    TreeNodes(m, own, 4);
    TreeEntry(m, own, 4, p, i);
    if c !in own {
      BelowAbsent(own, c);
    } else if Depth(p) == 3 {
      BelowPage(own, c);
    } else {
      FreedFirst(m, own, c, ENTRIES);
      BelowTable(own, c);
    }
  }

  lemma {:induction false} FreedFirst(m: Mem, own: Tree, p: Path, n: nat)
    requires IsTree(m, own, 4) && p in own && Depth(p) <= 3 && n <= Width(p)
    ensures FreedEntries(m, own[p], Depth(p), n) == FramesFirst(own, p, n)
    ensures TableFrees(m, own[p], Depth(p), n) == |FramesFirst(own, p, n)|
    decreases 4 - Depth(p), n + 1
  {
    hide IsTree, FreedEntry, EntryFrees, FreedEntries, TableFrees, FramesFirst, FramesBelow;
    TreeNodes(m, own, 4);
    FramesStep(own, p, n);
    EntriesStep(m, own[p], Depth(p), n);
    if n > 0 {
      FramesApart(own, p, n - 1);
      FreedFirst(m, own, p, n - 1);
      FreedOne(m, own, p, n - 1);
    }
  }

  lemma EntriesStep(m: Mem, t: nat, level: nat, n: nat)
    requires level <= 3 && t < LIMIT && n <= ENTRIES
    ensures n == 0 ==> FreedEntries(m, t, level, n) == {} && TableFrees(m, t, level, n) == 0
    ensures n > 0 ==>
              && FreedEntries(m, t, level, n) == FreedEntries(m, t, level, n - 1) + FreedEntry(m, m[t][n - 1], level)
              && TableFrees(m, t, level, n) == TableFrees(m, t, level, n - 1) + EntryFrees(m, m[t][n - 1], level)
  {
    hide FreedEntry, EntryFrees;
  }

  lemma FramesStep(own: Tree, p: Path, n: nat)
    ensures n == 0 ==> FramesFirst(own, p, n) == {}
    ensures n > 0 ==> FramesFirst(own, p, n) == FramesFirst(own, p, n - 1) + FramesBelow(own, Child(p, n - 1))
  {
    forall q | q in own
      ensures n == 0 ==> !BelowFirst(q, p, 0)
      ensures n > 0 ==> (BelowFirst(q, p, n) <==> BelowFirst(q, p, n - 1) || Below(q, Child(p, n - 1)))
    {
      if n == 0 { NoneFirst(q, p); } else { BelowFirstStep(q, p, n); }
    }
  }

  lemma {:induction false} NoneFirst(q: Path, p: Path)
    ensures !BelowFirst(q, p, 0)
  {
    if q.Child? { NoneFirst(q.parent, p); }
  }

  lemma {:induction false} AllBelowRoot(q: Path)
    ensures Below(q, Root)
  {
    if q.Child? { AllBelowRoot(q.parent); }
  }

  /** Teardown frees every frame of the space, table or page, and no other; it makes as many
      frees as there are frames, so it frees each once. */
  lemma TeardownFreesAll(m: Mem, own: Tree)
    requires IsTree(m, own, 4)
    ensures FreedSpace(m, own[Root]) == own.Values
    ensures SpaceFrees(m, own[Root]) == |own.Values|
  {
    hide IsTree, FreedEntries, TableFrees, FramesFirst;
    TreeNodes(m, own, 4);
    FreedFirst(m, own, Root, 256);
    BelowTable(own, Root);
    AllFrames(own);
  }

  lemma AllFrames(own: Tree)
    requires Nodes(own, 4)
    ensures FramesBelow(own, Root) == own.Values
  {
    forall q | q in own ensures Below(q, Root) {
      AllBelowRoot(q);
    }
    forall f | f in own.Values ensures f in FramesBelow(own, Root) {
      var q :| q in own && own[q] == f;
      assert Below(q, Root);
    }
  }

  // ── A whole life ───────────────────────────────────────────────────────────

  datatype Op = Fault(cr2: nat, error: nat) | Unmap(start: nat, size: nat)

  /** No range unmaps a page of the kernel's. */
  ghost predicate HarmlessOp(m: Mem, root: nat, op: Op, stock: set<nat>) {
    op.Unmap? ==> HarmlessPages(m, root, FirstPage(op.start), EndPage(op.start, op.size), stock)
  }

  /** A range below the kernel half is harmless whatever the memory holds. */
  lemma UserRangeHarmless(m: Mem, root: nat, start: nat, size: nat, stock: set<nat>)
    requires start + size + 4095 < USER_END
    ensures HarmlessOp(m, root, Unmap(start, size), stock)
  {
    hide LowerHalf, Apart;
    forall u: nat | FirstPage(start) <= u < EndPage(start, size) && u % 4096 == 0 ensures Harmless(m, root, u, stock) {
      UserPage(u);
    }
  }

  ghost function Apply(s: State, root: nat, op: Op): State {
    match op
    case Fault(cr2, error) => Demand(s, root, cr2, error).1
    case Unmap(start, size) => UnmapRange(s, root, start, size)
  }

  ghost function Run(s: State, root: nat, ops: seq<Op>): State
    decreases |ops|
  {
    if ops == [] then s else Run(Apply(s, root, ops[0]), root, ops[1..])
  }

  lemma ApplyKeeps(s: State, root: nat, op: Op, own: Tree, stock: FreeSet, m0: Mem, kernel: nat) returns (own': Tree)
    requires Living(s, own, root, stock) && Intact(m0, kernel, s.mem, root, stock) && HarmlessOp(m0, kernel, op, stock)
    ensures var s' := Apply(s, root, op);
            Living(s', own', root, stock) && Intact(m0, kernel, s'.mem, root, stock)
  {
    hide Demand, UnmapPages, Living, Intact, Kept, HarmlessPages;
    LivingRoot(s, own, root, stock);
    own' := own;
    match op
    case Fault(cr2, error) =>
      own' := DemandKeeps(s, root, cr2, error, own, stock);
      DemandStays(s, root, cr2, error, own, stock);
      IntactKept(m0, kernel, s.mem, Demand(s, root, cr2, error).1.mem, root, stock);
    case Unmap(start, size) =>
      if size > 0 {
        own' := UnmapKeeps(s, root, FirstPage(start), EndPage(start, size), own, stock, m0, kernel);
      }
  }

  lemma {:induction false} RunKeeps(s: State, root: nat, ops: seq<Op>, own: Tree, stock: FreeSet,
                                    m0: Mem, kernel: nat) returns (own': Tree)
    requires Living(s, own, root, stock) && Intact(m0, kernel, s.mem, root, stock)
    requires forall op :: op in ops ==> HarmlessOp(m0, kernel, op, stock)
    ensures var s' := Run(s, root, ops);
            Living(s', own', root, stock) && Intact(m0, kernel, s'.mem, root, stock)
    decreases |ops|
  {
    hide Living, Apply, Intact, HarmlessOp;
    own' := own;
    if ops != [] {
      own' := ApplyKeeps(s, root, ops[0], own, stock, m0, kernel);
      own' := RunKeeps(Apply(s, root, ops[0]), root, ops[1..], own', stock, m0, kernel);
    }
  }

  /** No frame leaks: after creation, any run of faults and of range unmappings, wherever they
      lie, that unmap no page of the kernel's (failed ones included) and teardown, the free frames
      are exactly the ones it started with. In between, no frame outside them is written. */
  lemma NoFrameLeaks(s: State, kernelRoot: nat, ops: seq<Op>)
    requires s.free != {} && kernelRoot < LIMIT && kernelRoot !in s.free
    requires forall op :: op in ops ==> HarmlessOp(s.mem, kernelRoot, op, s.free)
    ensures var (r, s1) := AllocRoot(s, kernelRoot);
            && r.Some?
            && var s2 := Run(s1, r.value, ops);
            && s2.free + FreedSpace(s2.mem, r.value) == s.free && s2.free !! FreedSpace(s2.mem, r.value)
            && SameExcept(s.mem, s2.mem, s.free)
  {
    hide AllocRoot, Run, FreedSpace, IsTree, AnonOnly, HarmlessOp;
    NewSpaceLives(s, kernelRoot);
    var (r, s1) := AllocRoot(s, kernelRoot);
    var own := RunKeeps(s1, r.value, ops, map[Root := r.value], s.free, s.mem, kernelRoot);
    TeardownFreesAll(Run(s1, r.value, ops).mem, own);
  }

  // ── Which ranges do harm ───────────────────────────────────────────────────

  /** A word that is zero stays zero while a range is unmapped. */
  lemma {:induction false} ZeroStays(s: State, root: nat, v: nat, end: nat, t: nat, i: nat)
    requires t < LIMIT && i < ENTRIES && s.mem[t][i] == 0
    ensures UnmapPages(s, root, v, end).mem[t][i] == 0
    decreases end - v
  {
    hide LeafTable, FreeFrame;
    if v < end {
      var s' := UnmapOne(s, root, v);
      if s'.Some? {
        FreedMem(s.(mem := UnmapPage(s.mem, root, v).1), UnmapPage(s.mem, root, v).0);
        ZeroStays(s'.value, root, v + 4096, end, t, i);
      }
    }
  }

  lemma FreedMem(s: State, o: Outcome<nat>)
    ensures o.Done? ==> FreeFrame(s, o.value / 4096).mem == s.mem
  {
  }

  /** A word outside the stock, present before, that is gone. */
  ghost predicate Lost(m0: Mem, m: Mem, stock: set<nat>) {
    exists t: nat, i: nat :: t < LIMIT && i < ENTRIES && t !in stock && Present(m0[t][i]) && m[t][i] == 0
  }

  lemma LostNotIntact(m0: Mem, kernel: nat, m: Mem, root: nat, stock: set<nat>)
    requires Lost(m0, m, stock)
    ensures !Intact(m0, kernel, m, root, stock)
  {
    ZeroAbsent();
  }

  /** The leaf table of a mapped kernel-half page is outside the stock. */
  lemma ApartLeaf(m: Mem, root: nat, v: nat, stock: set<nat>)
    requires Apart(m, root, v, stock) && LeafTable(m, root, v).Done?
    ensures var t := LeafTable(m, root, v).value;
            t < LIMIT && t !in stock && Present(m[t][I1(v)])
  {
    hide Present, FrameNo, I1, I2, I3, I4;
  }

  ghost predicate ApartPages(m: Mem, root: nat, v: nat, end: nat, stock: set<nat>) {
    forall u: nat :: v <= u < end && u % 4096 == 0 ==> LowerHalf(u) || Apart(m, root, u, stock)
  }

  /** Unmapping a mapped kernel-half page loses a word of the kernel's for good. */
  lemma {:induction false} RangeLoses(s: State, root: nat, v: nat, end: nat, own: Tree, stock: FreeSet,
                                      m0: Mem, kernel: nat, u: nat)
    requires Living(s, own, root, stock) && Intact(m0, kernel, s.mem, root, stock)
    requires v % 4096 == 0 && ApartPages(m0, kernel, v, end, stock)
    requires v <= u < end && u % 4096 == 0 && !LowerHalf(u) && LeafTable(m0, kernel, u).Done?
    ensures Lost(m0, UnmapPages(s, root, v, end).mem, stock)
    decreases end - v
  {
    hide Living, Intact, LowerHalf, Apart, LeafTable, UnmapOne, Lost;
    if !LowerHalf(v) && LeafTable(m0, kernel, v).Done? {
      PageLoses(s, root, v, end, stock, m0, kernel);
    } else {
      if !LowerHalf(v) { NotPanicked(m0, kernel, v, stock); }
      var own' := UnmapOneKeeps(s, own, root, v, stock, m0, kernel);
      RangeLoses(UnmapOne(s, root, v).value, root, v + 4096, end, own', stock, m0, kernel, u);
    }
  }

  lemma NotPanicked(m: Mem, root: nat, v: nat, stock: set<nat>)
    requires Apart(m, root, v, stock)
    ensures !LeafTable(m, root, v).Panicked?
  {
  }

  lemma UnmapsAt(s: State, root: nat, v: nat, t: nat)
    requires LeafTable(s.mem, root, v) == Done(t) && t < LIMIT
    ensures I1(v) < ENTRIES
    ensures var s' := UnmapOne(s, root, v);
            s'.Some? && s'.value == FreeFrame(s.(mem := Write(s.mem, t, I1(v), 0)), FrameNo(s.mem[t][I1(v)]))
    ensures UnmapOne(s, root, v).value.mem[t][I1(v)] == 0
  {
    hide LeafTable;
  }

  lemma PageLoses(s: State, root: nat, v: nat, end: nat, stock: FreeSet, m0: Mem, kernel: nat)
    requires Intact(m0, kernel, s.mem, root, stock) && v < end
    requires Apart(m0, kernel, v, stock) && LeafTable(m0, kernel, v).Done?
    ensures Lost(m0, UnmapPages(s, root, v, end).mem, stock)
  {
    hide LeafTable, FreeFrame, Apart, Intact, Present, FrameNo, I1, UnmapOne;
    ApartWalksAlike(m0, kernel, s.mem, root, v, stock);
    ApartLeaf(m0, kernel, v, stock);
    var t, i := LeafTable(m0, kernel, v).value, I1(v);
    UnmapsAt(s, root, v, t);
    ZeroStays(UnmapOne(s, root, v).value, root, v + 4096, end, t, i);
  }

  /** The frame of a mapped kernel-half page is handed to the allocator, in the stock or not. */
  lemma KernelPageFreed(s: State, root: nat, v: nat, stock: FreeSet)
    requires Apart(s.mem, root, v, stock) && LeafTable(s.mem, root, v).Done?
    ensures var t := LeafTable(s.mem, root, v).value;
            && t < LIMIT && UnmapOne(s, root, v).Some?
            && var f := FrameNo(s.mem[t][I1(v)]);
            256 <= f < 0x10_0000 ==> UnmapOne(s, root, v).value.free == s.free + {f}
  {
    hide LeafTable, Apart, Present, FrameNo, I1, UnmapOne;
    ApartLeaf(s.mem, root, v, stock);
    UnmapsAt(s, root, v, LeafTable(s.mem, root, v).value);
  }

  /** Exactly which ranges conserve: where the tables of the range's kernel-half pages are the
      kernel's, unmapping it keeps the stock and everything outside it if and only if none of
      those pages is mapped. */
  lemma RangeConserves(s: State, root: nat, start: nat, size: nat, own: Tree, stock: FreeSet)
    requires Living(s, own, root, stock) && size > 0
    requires ApartPages(s.mem, root, FirstPage(start), EndPage(start, size), stock)
    ensures var s' := UnmapRange(s, root, start, size);
            (exists own' :: Living(s', own', root, stock)) && Kept(s.mem, s'.mem, root, stock) <==>
              forall u: nat :: FirstPage(start) <= u < EndPage(start, size) && u % 4096 == 0 && !LowerHalf(u) ==>
                LeafTable(s.mem, root, u).Failed?
  {
    hide Living, Apart, LowerHalf, LeafTable, UnmapPages, Lost;
    LivingRoot(s, own, root, stock);
    var v, end, s' := FirstPage(start), EndPage(start, size), UnmapRange(s, root, start, size);
    assert Intact(s.mem, root, s.mem, root, stock);
    if u: nat :| v <= u < end && u % 4096 == 0 && !LowerHalf(u) && !LeafTable(s.mem, root, u).Failed? {
      NotPanicked(s.mem, root, u, stock);
      RangeLoses(s, root, v, end, own, stock, s.mem, root, u);
      LostNotIntact(s.mem, root, s'.mem, root, stock);
    } else {
      var own' := UnmapKeeps(s, root, v, end, own, stock, s.mem, root);
    }
  }

  const KERNEL_PAGE: nat := 0xFFFF_8000_0000_0000

  /** A space of one frame, its root 300; the first kernel-half page is mapped to frame 304
      through the kernel's tables 301, 302 and 303. The rest of memory is as in `m`. */
  ghost function Shared(m: Mem): State {
    var m3 := Write(Write(m, 303, 0, TableEntry(304)), 302, 0, TableEntry(303));
    State(Write(Write(m3, 301, 0, TableEntry(302))[300 := ZeroTable()], 300, 256, TableEntry(301)), {})
  }

  lemma KernelPageIs()
    ensures I4(KERNEL_PAGE) == 256 && I3(KERNEL_PAGE) == I2(KERNEL_PAGE) == I1(KERNEL_PAGE) == 0
    ensures FirstPage(KERNEL_PAGE) == KERNEL_PAGE && EndPage(KERNEL_PAGE, 4096) == KERNEL_PAGE + 4096
  {
  }

  lemma SharedWords(m: Mem)
    ensures var s := Shared(m);
            && s.free == {} && s.mem[300][256] == TableEntry(301) && s.mem[301][0] == TableEntry(302)
            && s.mem[302][0] == TableEntry(303) && s.mem[303][0] == TableEntry(304)
            && forall i :: 0 <= i < 256 ==> s.mem[300][i] == 0
  {
    hide TableEntry;
  }

  lemma SharedWalk(m: Mem)
    ensures var m' := Shared(m).mem;
            LeafTable(m', 300, KERNEL_PAGE) == Done(303) && Apart(m', 300, KERNEL_PAGE, {300})
            && FrameNo(m'[303][0]) == 304
  {
    hide Present, FrameNo, Huge, I1, I2, I3, I4, Shared, TableEntry;
    KernelPageIs();
    SharedWords(m);
  }

  lemma SharedLives(m: Mem)
    ensures Living(Shared(m), map[Root := 300], 300, {300})
  {
    hide Present, FrameNo, Huge, Shared, TableEntry, Wide, I1, I2, I3, I4;
    var m', own: Tree := Shared(m).mem, map[Root := 300];
    ZeroAbsent();
    SharedWords(m);
    assert own[Root] == 300 && own[Root] in own.Values;
    assert Nodes(own, 4);
    assert own.Values == {300};
  }

  /** Unmapping one kernel-half page frees a frame that was never of the stock. */
  lemma KernelRangeHarms(m: Mem)
    ensures Living(Shared(m), map[Root := 300], 300, {300})
    ensures UnmapRange(Shared(m), 300, KERNEL_PAGE, 4096).free == {304}
  {
    hide LeafTable, Apart, Present, FrameNo, I1, I2, I3, I4, UnmapOne, UnmapRange, Living, Shared;
    SharedLives(m);
    SharedWalk(m);
    SharedWords(m);
    KernelPageIs();
    KernelPageFreed(Shared(m), 300, KERNEL_PAGE, {300});
    OnePage(Shared(m), 300, KERNEL_PAGE);
  }

  lemma OnePage(s: State, root: nat, v: nat)
    requires 0 < root < LIMIT && FirstPage(v) == v && EndPage(v, 4096) == v + 4096 && UnmapOne(s, root, v).Some?
    ensures UnmapRange(s, root, v, 4096) == UnmapOne(s, root, v).value
  {
    hide UnmapOne, FirstPage, EndPage;
    PastEnd(UnmapOne(s, root, v).value, root, v + 4096);
  }

  lemma PastEnd(s: State, root: nat, v: nat)
    ensures UnmapPages(s, root, v, v) == s
  {
  }
}
