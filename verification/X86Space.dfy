/** What the x86_64 page-table operations do to physical memory and the free frames, as
    functions, and what they keep. A panic of `phys_to_virt` on a corrupt table pointer is
    an outcome of its own; on a well-formed tree it does not happen. */
module X86Space {

  import opened Options
  import opened PhysMemory
  import opened X86Walk

  // ── One page ───────────────────────────────────────────────────────────────

  /** The child table of an entry, allocated and zeroed if the entry is absent. */
  ghost function EnsureNext(s: State, t: nat, i: nat): (Outcome<nat>, State)
    requires i < ENTRIES
  {
    if t >= LIMIT then (Panicked, s)
    else if Present(s.mem[t][i]) then (Done(FrameNo(s.mem[t][i])), s)
    else if s.free == {} then (Failed, s)
    else
      var f := Least(s.free);
      (Done(f), State(Write(Clear(s.mem, f), t, i, TableEntry(f)), s.free - {f}))
  }

  /** The table walk of `map_page_in` from the level-`k` table `t` down to the leaf table. */
  ghost function EnsureTables(s: State, t: nat, k: nat, virt: nat): (Outcome<nat>, State)
    requires 1 <= k <= 4
    decreases k
  {
    if k == 1 then (Done(t), s)
    else
      var (o, s') := EnsureNext(s, t, Index(k, virt));
      if o.Done? then EnsureTables(s', o.value, k - 1, virt) else (o, s')
  }

  /** `map_page_in` with the leaf word already built. */
  ghost function MapWord(s: State, root: nat, virt: nat, w: nat): (Outcome<()>, State) {
    match EnsureTables(s, root, 4, virt)
    case (Done(t), s') => if t < LIMIT then (Done(()), s'.(mem := Write(s'.mem, t, I1(virt), w))) else (Panicked, s')
    case (Failed, s') => (Failed, s')
    case (Panicked, s') => (Panicked, s')
  }

  ghost function MapPageIn(s: State, root: nat, virt: nat, phys: nat, flags: PageFlags): (Outcome<()>, State) {
    MapWord(s, root, virt, Entry(phys, flags))
  }

  /** The leaf table on a write path: four presence tests with the panicking conversion. */
  function LeafTable(m: Mem, root: nat, virt: nat): Outcome<nat> {
    if root >= LIMIT then Panicked
    else if !Present(m[root][I4(virt)]) then Failed
    else
      var t3 := FrameNo(m[root][I4(virt)]);
      if t3 >= LIMIT then Panicked
      else if !Present(m[t3][I3(virt)]) then Failed
      else
        var t2 := FrameNo(m[t3][I3(virt)]);
        if t2 >= LIMIT then Panicked
        else if !Present(m[t2][I2(virt)]) then Failed
        else
          var t1 := FrameNo(m[t2][I2(virt)]);
          if t1 >= LIMIT then Panicked
          else if !Present(m[t1][I1(virt)]) then Failed
          else Done(t1)
  }

  function UpdateFlags(m: Mem, root: nat, virt: nat, writable: bool, exec: bool): (Outcome<()>, Mem) {
    match LeafTable(m, root, virt)
    case Done(t) =>
      if t < LIMIT then
        (Done(()), Write(m, t, I1(virt), Entry(m[t][I1(virt)], UserFlags(writable, exec))))
      else (Panicked, m)
    case Failed => (Failed, m)
    case Panicked => (Panicked, m)
  }

  function UnmapPage(m: Mem, root: nat, virt: nat): (Outcome<nat>, Mem) {
    match LeafTable(m, root, virt)
    case Done(t) =>
      if t < LIMIT then (Done(PhysOf(m[t][I1(virt)])), Write(m, t, I1(virt), 0)) else (Panicked, m)
    case Failed => (Failed, m)
    case Panicked => (Panicked, m)
  }

  // ── Growth of the tables ───────────────────────────────────────────────────

  /** The tree gained frames of the free set and kept its old ones. */
  ghost predicate Extends(own: Tree, own': Tree, free: set<nat>, free': set<nat>) {
    && (forall q :: q in own ==> q in own' && own'[q] == own[q])
    && (forall q :: q in own' && q !in own ==> own'[q] in free)
    && free' == free - own'.Values
  }

  /** Old leaf tables are kept and new leaf tables are zero. */
  ghost predicate LeavesKept(m: Mem, m': Mem, own: Tree, own': Tree)
    requires Nodes(own, 3) && Nodes(own', 3)
  {
    forall q :: q in own' && Depth(q) == 3 ==>
      m'[own'[q]] == if q in own then m[own[q]] else ZeroTable()
  }

  ghost predicate KernelWordsKept(m: Mem, m': Mem, root: nat)
    requires root < LIMIT
  {
    m'[root][256..] == m[root][256..]
  }

  /** Tables were added and nothing else happened. */
  ghost predicate Grown(s: State, s': State, own: Tree, own': Tree) {
    && Nodes(own, 3) && Nodes(own', 3)
    && Extends(own, own', s.free, s'.free)
    && SameExcept(s.mem, s'.mem, own'.Values)
    && LeavesKept(s.mem, s'.mem, own, own')
    && KernelWordsKept(s.mem, s'.mem, own[Root])
    && (Open(s.mem, own) ==> Open(s'.mem, own'))
  }

  /** A well-formed space: a tree whose frames are not free. */
  ghost predicate Space(s: State, own: Tree, d: nat) {
    IsTree(s.mem, own, d) && own.Values !! s.free
  }

  lemma ExtendsTrans(own: Tree, own1: Tree, own2: Tree, free: set<nat>, free1: set<nat>, free2: set<nat>)
    requires Extends(own, own1, free, free1) && Extends(own1, own2, free1, free2)
    ensures Extends(own, own2, free, free2) && own1.Values <= own2.Values
  {
  }

  lemma LeavesTrans(m: Mem, m1: Mem, m2: Mem, own: Tree, own1: Tree, own2: Tree)
    requires Nodes(own, 3) && Nodes(own1, 3) && Nodes(own2, 3)
    requires LeavesKept(m, m1, own, own1) && LeavesKept(m1, m2, own1, own2)
    requires forall q :: q in own ==> q in own1
    ensures LeavesKept(m, m2, own, own2)
  {
  }

  lemma GrownTrans(s: State, s1: State, s2: State, own: Tree, own1: Tree, own2: Tree)
    requires Grown(s, s1, own, own1) && Grown(s1, s2, own1, own2)
    ensures Grown(s, s2, own, own2)
  {
    hide Open;
    ExtendsTrans(own, own1, own2, s.free, s1.free, s2.free);
    LeavesTrans(s.mem, s1.mem, s2.mem, own, own1, own2);
  }

  lemma NothingGrown(s: State, own: Tree)
    requires Space(s, own, 3)
    ensures Grown(s, s, own, own)
  {
  }

  lemma NewTableExtends(own: Tree, own': Tree, p: Path, i: nat, f: nat, free: set<nat>)
    requires Child(p, i) !in own && f in free && own.Values !! free
    requires own' == own[Child(p, i) := f]
    ensures Extends(own, own', free, free - {f})
    ensures own'.Values == own.Values + {f}
  {
  }

  lemma NewTableLeaves(m: Mem, m': Mem, own: Tree, own': Tree, p: Path, i: nat, f: nat, w: nat)
    requires Nodes(own, 3) && Nodes(own', 3) && p in own && Depth(p) <= 2 && i < Width(p)
    requires Child(p, i) !in own && 0 < f < LIMIT && f !in own.Values
    requires own' == own[Child(p, i) := f]
    requires m' == Write(Clear(m, f), own[p], i, w)
    ensures LeavesKept(m, m', own, own') && KernelWordsKept(m, m', own[Root])
    ensures SameExcept(m, m', {own[p], f})
  {
  }

  lemma NewTableOpen(m: Mem, m': Mem, own: Tree, own': Tree, p: Path, i: nat, f: nat)
    requires Nodes(own, 3) && p in own && Depth(p) <= 2 && i < Width(p)
    requires Child(p, i) !in own && 0 < f < LIMIT && f !in own.Values && Open(m, own)
    requires own' == own[Child(p, i) := f] && m' == Write(Clear(m, f), own[p], i, TableEntry(f))
    ensures Open(m', own')
  {
    hide Wide, TableEntry;
    TableIsWide(f);
    forall q, j: nat | q in own' && own'[q] < LIMIT && Depth(q) <= 2 && j < Width(q) && Child(q, j) in own'
      ensures Wide(m'[own'[q]][j])
    {
      assert q in own && own[q] in own.Values;
      if q == p && j == i {
        assert m'[own[p]][i] == TableEntry(f);
      } else {
        assert Child(q, j) in own;
        assert m'[own[q]][j] == m[own[q]][j];
      }
    }
  }

  /** One step down keeps the space well formed, reaches the child, and only adds tables. */
  lemma EnsureOnTree(s: State, t: nat, i: nat, own: Tree, p: Path) returns (own': Tree)
    requires Space(s, own, 3) && p in own && own[p] == t && Depth(p) <= 2 && i < Width(p)
    ensures var (o, s') := EnsureNext(s, t, i);
            && !o.Panicked? && Space(s', own', 3) && Grown(s, s', own, own')
            && (o.Done? ==> Child(p, i) in own' && own'[Child(p, i)] == o.value)
            && (o.Failed? ==> s'.free == {})
            && own' == if Child(p, i) in own || s.free == {} then own else own[Child(p, i) := Least(s.free)]
  {
    var (o, s') := EnsureNext(s, t, i);
    assert Linked(s.mem, own, p, i);
    own' := own;
    NothingGrown(s, own);
    if !Present(s.mem[t][i]) && s.free != {} {
      var f := Least(s.free);
      own' := own[Child(p, i) := f];
      NewTableExtends(own, own', p, i, f, s.free);
      NewNodes(own, own', p, i, f);
      assert own[p] in own.Values;
      NewTable(s.mem, s'.mem, own, own', p, i, f, TableEntry(f));
      NewTableLeaves(s.mem, s'.mem, own, own', p, i, f, TableEntry(f));
      if Open(s.mem, own) { NewTableOpen(s.mem, s'.mem, own, own', p, i, f); }
    }
  }

  /** The tables down to the leaf are there, or the frames ran out on the way. */
  ghost predicate TablesReady(s: State, t: nat, k: nat, virt: nat, own: Tree, own': Tree)
    requires 1 <= k <= 4
  {
    var (o, s') := EnsureTables(s, t, k, virt);
    && !o.Panicked? && Space(s', own', 3) && Grown(s, s', own, own')
    && (o.Done? ==> P3(virt) in own' && own'[P3(virt)] == o.value)
    && (o.Failed? ==> s'.free == {})
  }

  lemma {:induction false} TablesOnTree(s: State, t: nat, k: nat, virt: nat, own: Tree) returns (own': Tree)
    requires 1 <= k <= 4 && Space(s, own, 3) && LowerHalf(virt)
    requires TablePath(k, virt) in own && own[TablePath(k, virt)] == t
    ensures TablesReady(s, t, k, virt, own, own')
    decreases k
  {
    hide EnsureNext, IsTree, Grown;
    if k == 1 {
      own' := own;
      NothingGrown(s, own);
    } else {
      TablePathStep(k, virt);
      var (o, s1) := EnsureNext(s, t, Index(k, virt));
      var own1 := EnsureOnTree(s, t, Index(k, virt), own, TablePath(k, virt));
      own' := own1;
      if o.Done? {
        own' := TablesOnTree(s1, o.value, k - 1, virt, own1);
        GrownTrans(s, s1, EnsureTables(s1, o.value, k - 1, virt).1, own, own1, own');
      }
    }
  }

  // ── The flat map ───────────────────────────────────────────────────────────

  /** Every lower-half walk is as before, except that a hit page now gives `w`. */
  ghost predicate WalksBut(m: Mem, m': Mem, root: nat, virt: nat, hit: bool, w: Option<nat>) {
    forall v: nat :: LowerHalf(v) ==>
      Walk(m', root, v) == (if hit && Page(v) == Page(virt) then w else Walk(m, root, v))
  }

  lemma GrownLeaf(m: Mem, m': Mem, own: Tree, own': Tree, v: nat)
    requires Nodes(own, 3) && Nodes(own', 3) && LeavesKept(m, m', own, own')
    requires P3(v) in own ==> P3(v) in own'
    ensures LeafAt(m', own', v) == LeafAt(m, own, v)
  {
  }

  /** Adding tables moves no translation. */
  lemma GrownWalk(s: State, s': State, own: Tree, own': Tree, v: nat)
    requires Grown(s, s', own, own')
    requires IsTree(s.mem, own, 3) && IsTree(s'.mem, own', 3) && LowerHalf(v)
    ensures Walk(s'.mem, own[Root], v) == Walk(s.mem, own[Root], v)
  {
    WalkOnTree(s.mem, own, 3, v);
    WalkOnTree(s'.mem, own', 3, v);
    GrownLeaf(s.mem, s'.mem, own, own', v);
  }

  lemma GrownWalks(s: State, s': State, own: Tree, own': Tree, virt: nat, w: Option<nat>)
    requires Grown(s, s', own, own')
    requires IsTree(s.mem, own, 3) && IsTree(s'.mem, own', 3)
    ensures WalksBut(s.mem, s'.mem, own[Root], virt, false, w)
  {
    forall v: nat | LowerHalf(v) ensures Walk(s'.mem, own[Root], v) == Walk(s.mem, own[Root], v) {
      GrownWalk(s, s', own, own', v);
    }
  }

  // ── When there are frames enough ───────────────────────────────────────────

  /** How many of the tables of an address below its level-`k` one are not in the tree. */
  ghost function Missing(own: Tree, k: nat, virt: nat): nat
    requires 1 <= k <= 4
    decreases k
  {
    if k == 1 then 0 else Missing(own, k - 1, virt) + if TablePath(k - 1, virt) in own then 0 else 1
  }

  lemma {:induction false} MissingKept(own: Tree, own': Tree, k: nat, virt: nat)
    requires 1 <= k <= 4 && forall j :: 1 <= j < k ==> (TablePath(j, virt) in own <==> TablePath(j, virt) in own')
    ensures Missing(own', k, virt) == Missing(own, k, virt)
    decreases k
  {
    hide TablePath;
    if k > 1 {
      MissingKept(own, own', k - 1, virt);
    }
  }

  /** The table walk goes through exactly when there is a frame for each table that is missing. */
  lemma {:induction false} EnsureSucceeds(s: State, t: nat, k: nat, virt: nat, own: Tree)
    requires 1 <= k <= 4 && Space(s, own, 3) && LowerHalf(virt)
    requires TablePath(k, virt) in own && own[TablePath(k, virt)] == t
    ensures EnsureTables(s, t, k, virt).0.Done? <==> |s.free| >= Missing(own, k, virt)
    decreases k
  {
    hide Grown, IsTree, Present, FrameNo, TableEntry;
    if k > 1 {
      TablePathStep(k, virt);
      var p, i := TablePath(k, virt), Index(k, virt);
      var own' := EnsureOnTree(s, t, i, own, p);
      NextTakes(s, t, i, own, p);
      var (o, s') := EnsureNext(s, t, i);
      if o.Done? {
        OtherPaths(own, own', k, virt);
        MissingKept(own, own', k - 1, virt);
        EnsureSucceeds(s', o.value, k - 1, virt, own');
      }
    }
  }

  /** One step takes a frame exactly when the table is missing and there is one. */
  lemma NextTakes(s: State, t: nat, i: nat, own: Tree, p: Path)
    requires Space(s, own, 3) && p in own && own[p] == t && Depth(p) <= 2 && i < Width(p)
    ensures var (o, s') := EnsureNext(s, t, i);
            if Child(p, i) in own then o.Done? && s'.free == s.free
            else if s.free == {} then o.Failed?
            else o.Done? && |s'.free| == |s.free| - 1
  {
    assert Linked(s.mem, own, p, i);
  }

  lemma TablePathDepth(j: nat, virt: nat)
    requires 1 <= j <= 4
    ensures Depth(TablePath(j, virt)) == 4 - j
  {
    PathDepths(virt);
  }

  lemma OtherPaths(own: Tree, own': Tree, k: nat, virt: nat)
    requires 2 <= k <= 4
    requires forall q :: q in own' <==> q in own || (q == TablePath(k - 1, virt) && q in own')
    ensures forall j :: 1 <= j < k - 1 ==> (TablePath(j, virt) in own <==> TablePath(j, virt) in own')
  {
    hide TablePath;
    forall j | 1 <= j < k - 1 ensures TablePath(j, virt) in own <==> TablePath(j, virt) in own' {
      TablePathDepth(j, virt);
      TablePathDepth(k - 1, virt);
    }
  }

  /** A mapping succeeds exactly when there is a frame for each of its tables that is missing. */
  lemma MapSucceeds(s: State, root: nat, virt: nat, phys: nat, flags: PageFlags, own: Tree)
    requires Space(s, own, 3) && own[Root] == root && LowerHalf(virt)
    ensures var p1 := Child(Root, I4(virt));
            var p2 := Child(p1, I3(virt));
            var p3 := Child(p2, I2(virt));
            MapPageIn(s, root, virt, phys, flags).0.Done? <==>
            |s.free| >= (if p1 in own then 0 else 1) + (if p2 in own then 0 else 1) + (if p3 in own then 0 else 1)
  {
    hide EnsureTables, IsTree, Grown;
    TreeNodes(s.mem, own, 3);
    var own' := TablesOnTree(s, root, 4, virt, own);
    EnsureSucceeds(s, root, 4, virt, own);
    MissingAll(own, virt);
    var (o, s') := EnsureTables(s, root, 4, virt);
    if o.Done? {
      TreeNodes(s'.mem, own', 3);
    }
  }

  lemma MissingAll(own: Tree, virt: nat)
    ensures var p1 := Child(Root, I4(virt));
            var p2 := Child(p1, I3(virt));
            var p3 := Child(p2, I2(virt));
            Missing(own, 4, virt) ==
            (if p1 in own then 0 else 1) + (if p2 in own then 0 else 1) + (if p3 in own then 0 else 1)
  {
    assert Missing(own, 2, virt) == if TablePath(1, virt) in own then 0 else 1;
  }

  ghost predicate LeafWritten(m: Mem, m': Mem, own: Tree, virt: nat, w: nat) {
    && P3(virt) in own && own[P3(virt)] < LIMIT
    && m' == Write(m, own[P3(virt)], I1(virt), w)
  }

  /** A leaf table is not the root, so a leaf write keeps the kernel words. */
  lemma LeafWriteFrame(m: Mem, m': Mem, own: Tree, virt: nat, w: nat)
    requires Nodes(own, 3) && LeafWritten(m, m', own, virt, w)
    ensures SameExcept(m, m', own.Values) && KernelWordsKept(m, m', own[Root])
  {
  }

  lemma LeafWriteOpen(m: Mem, m': Mem, own: Tree, d: nat, virt: nat, w: nat)
    requires Nodes(own, d) && LeafWritten(m, m', own, virt, w)
    ensures Open(m, own) ==> Open(m', own)
  {
    hide Wide, I1;
    PathDepths(virt);
  }

  lemma MapOnTree(s: State, root: nat, virt: nat, w: nat, own: Tree, own': Tree)
    requires Space(s, own, 3) && own[Root] == root && LowerHalf(virt)
    requires TablesReady(s, root, 4, virt, own, own')
    ensures var (o, s') := MapWord(s, root, virt, w);
            && !o.Panicked? && IsTree(s'.mem, own', 3)
            && WalksBut(s.mem, s'.mem, root, virt, o.Done?, IfPresent(w))
            && SameExcept(s.mem, s'.mem, own'.Values) && KernelWordsKept(s.mem, s'.mem, root)
            && (Open(s.mem, own) ==> Open(s'.mem, own'))
  {
    var (o, s1) := EnsureTables(s, root, 4, virt);
    var s' := MapWord(s, root, virt, w).1;
    GrownWalks(s, s1, own, own', virt, IfPresent(w));
    if o.Done? {
      LeafWrite(s1.mem, s'.mem, own', virt, w);
      LeafWriteFrame(s1.mem, s'.mem, own', virt, w);
      LeafWriteOpen(s1.mem, s'.mem, own', 3, virt, w);
    }
  }

  /** Mapping refines an update of the flat map. On success the walk of the page gives the
      written word (nothing, if its flags are not present) and no other walk moves; when a
      table cannot be allocated no walk moves at all. Frames outside the tree keep their
      contents, and so does the kernel half of the root. */
  lemma MapRefinesFlatMap(s: State, root: nat, virt: nat, phys: nat, flags: PageFlags, own: Tree) returns (own': Tree)
    requires Space(s, own, 3) && own[Root] == root && LowerHalf(virt)
    ensures var (o, s') := MapPageIn(s, root, virt, phys, flags);
            && !o.Panicked? && Space(s', own', 3)
            && WalksBut(s.mem, s'.mem, root, virt, o.Done?, IfPresent(Entry(phys, flags)))
            && SameExcept(s.mem, s'.mem, own'.Values) && KernelWordsKept(s.mem, s'.mem, root)
            && Extends(own, own', s.free, s'.free) && (Open(s.mem, own) ==> Open(s'.mem, own'))
            && (o.Failed? ==> s'.free == {})
  {
    hide IsTree, Open, WalksBut, SameExcept, KernelWordsKept, EnsureTables, Nodes, Entry, LeavesKept;
    TreeNodes(s.mem, own, 3);
    own' := TablesOnTree(s, root, 4, virt, own);
    MapOnTree(s, root, virt, Entry(phys, flags), own, own');
  }

  /** The write paths find the leaf table exactly when the walk finds the page. */
  lemma LeafTableOnTree(m: Mem, root: nat, virt: nat, own: Tree)
    requires IsTree(m, own, 3) && own[Root] == root && LowerHalf(virt)
    ensures match LeafTable(m, root, virt)
            case Panicked => false
            case Failed => Walk(m, root, virt).None?
            case Done(t) => P3(virt) in own && t == own[P3(virt)] && Walk(m, root, virt) == Some(m[t][I1(virt)])
  {
    WalkOnTree(m, own, 3, virt);
    PathDepths(virt);
    var p1 := Child(Root, I4(virt));
    assert Linked(m, own, Root, I4(virt));
    if p1 in own {
      assert Linked(m, own, p1, I3(virt));
      if Child(p1, I3(virt)) in own {
        assert Linked(m, own, Child(p1, I3(virt)), I2(virt));
      }
    }
  }

  lemma UserEntryFields(phys: nat, writable: bool, exec: bool)
    ensures var w := Entry(phys, UserFlags(writable, exec));
            && FrameNo(w) == FrameNo(phys) && Present(w)
            && Writable(w) == writable && NoExecute(w) == !exec && User(w)
  {
    EntryFields(phys, UserFlags(writable, exec));
    EntryUser(phys, UserFlags(writable, exec));
  }

  /** Changing flags rewrites the word of one mapped page, keeps its frame, and moves no
      other walk; on an unmapped page nothing changes. */
  lemma UpdateOnTree(m: Mem, root: nat, virt: nat, writable: bool, exec: bool, own: Tree)
    requires IsTree(m, own, 3) && own[Root] == root && LowerHalf(virt)
    ensures var (o, m') := UpdateFlags(m, root, virt, writable, exec);
            match Walk(m, root, virt)
            case None => o.Failed? && m' == m
            case Some(pte) =>
              var w := Entry(pte, UserFlags(writable, exec));
              && o.Done? && IsTree(m', own, 3)
              && FrameNo(w) == FrameNo(pte) && Writable(w) == writable && NoExecute(w) == !exec && User(w)
              && WalksBut(m, m', root, virt, true, Some(w))
              && SameExcept(m, m', own.Values) && KernelWordsKept(m, m', root)
  {
    hide Walk, LeafTable, SameExcept, Entry, UserFlags, IsTree, Nodes, KernelWordsKept, I1, P3, Present, FrameNo,
         Writable, NoExecute, User, Page, LowerHalf;
    TreeNodes(m, own, 3);
    LeafTableOnTree(m, root, virt, own);
    var m' := UpdateFlags(m, root, virt, writable, exec).1;
    match Walk(m, root, virt)
    case None =>
    case Some(pte) =>
      var w := Entry(pte, UserFlags(writable, exec));
      UserEntryFields(pte, writable, exec);
      LeafWrite(m, m', own, virt, w);
      LeafWriteFrame(m, m', own, virt, w);
  }

  /** Unmapping returns the frame of a mapped page and removes that page alone. */
  lemma UnmapOnTree(m: Mem, root: nat, virt: nat, own: Tree)
    requires IsTree(m, own, 3) && own[Root] == root && LowerHalf(virt)
    ensures var (o, m') := UnmapPage(m, root, virt);
            match Walk(m, root, virt)
            case None => o.Failed? && m' == m
            case Some(pte) =>
              && o == Done(PhysOf(pte)) && IsTree(m', own, 3)
              && LeafWritten(m, m', own, virt, 0) && pte == m[own[P3(virt)]][I1(virt)]
              && WalksBut(m, m', root, virt, true, None)
              && SameExcept(m, m', own.Values) && KernelWordsKept(m, m', root)
  {
    LeafTableOnTree(m, root, virt, own);
    var m' := UnmapPage(m, root, virt).1;
    if Walk(m, root, virt).Some? {
      LeafWrite(m, m', own, virt, 0);
      LeafWriteFrame(m, m', own, virt, 0);
    }
  }

  // ── Every address, in both halves ──────────────────────────────────────────

  /** Every walk is as before, except that a hit page now gives `w`. */
  ghost predicate AllWalksBut(m: Mem, m': Mem, root: nat, virt: nat, hit: bool, w: Option<nat>) {
    forall v: nat :: Walk(m', root, v) == (if hit && Page(v) == Page(virt) then w else Walk(m, root, v))
  }

  lemma PageInHalf(v: nat, virt: nat)
    requires LowerHalf(virt) && Page(v) == Page(virt)
    ensures LowerHalf(v)
  {
    PageDigits(v);
    PageDigits(virt);
  }

  lemma KernelHalfKept(m: Mem, m': Mem, root: nat, frames: set<nat>, k3: set<nat>, k2: set<nat>, k1: set<nat>)
    requires KernelHalf(m, root, k3, k2, k1) && (k3 + k2 + k1) !! frames
    requires SameExcept(m, m', frames) && KernelWordsKept(m, m', root)
    ensures KernelHalf(m', root, k3, k2, k1)
    ensures forall i :: 256 <= i < ENTRIES ==> m'[root][i] == m[root][i]
  {
    hide Present, FrameNo;
    forall i | 256 <= i < ENTRIES ensures m'[root][i] == m[root][i] {
      assert m'[root][256..][i - 256] == m[root][256..][i - 256];
    }
  }

  lemma BothHalves(m: Mem, m': Mem, root: nat, frames: set<nat>, k3: set<nat>, k2: set<nat>, k1: set<nat>,
                   virt: nat, hit: bool, w: Option<nat>)
    requires KernelHalf(m, root, k3, k2, k1) && (k3 + k2 + k1) !! frames
    requires SameExcept(m, m', frames) && KernelWordsKept(m, m', root)
    requires LowerHalf(virt) && WalksBut(m, m', root, virt, hit, w)
    ensures AllWalksBut(m, m', root, virt, hit, w) && KernelHalf(m', root, k3, k2, k1)
  {
    hide Walk, KernelHalf, Page, LowerHalf, SameExcept;
    KernelHalfKept(m, m', root, frames, k3, k2, k1);
    forall v: nat ensures Walk(m', root, v) == (if hit && Page(v) == Page(virt) then w else Walk(m, root, v)) {
      if !LowerHalf(v) {
        KernelHalfUnchanged(m, m', root, frames, k3, k2, k1, v);
        if Page(v) == Page(virt) { PageInHalf(v, virt); }
      }
    }
  }

  /** Mapping a user page gives that page its entry and moves the walk of no other address of
      either half, whenever the shared upper tables are neither the space's nor free. */
  lemma MapEveryAddress(s: State, root: nat, virt: nat, phys: nat, flags: PageFlags, own: Tree,
                        k3: set<nat>, k2: set<nat>, k1: set<nat>)
    requires Space(s, own, 3) && own[Root] == root && LowerHalf(virt)
    requires KernelHalf(s.mem, root, k3, k2, k1) && (k3 + k2 + k1) !! own.Values + s.free
    ensures var (o, s') := MapPageIn(s, root, virt, phys, flags);
            && AllWalksBut(s.mem, s'.mem, root, virt, o.Done?, IfPresent(Entry(phys, flags)))
            && KernelHalf(s'.mem, root, k3, k2, k1)
  {
    hide MapPageIn, KernelHalf, WalksBut, AllWalksBut, KernelWordsKept, SameExcept;
    var own' := MapRefinesFlatMap(s, root, virt, phys, flags, own);
    var (o, s') := MapPageIn(s, root, virt, phys, flags);
    forall f | f in own'.Values ensures f in own.Values + s.free {
      var q :| q in own' && own'[q] == f;
      if q in own { assert own[q] == f; }
    }
    BothHalves(s.mem, s'.mem, root, own'.Values, k3, k2, k1, virt, o.Done?, IfPresent(Entry(phys, flags)));
  }

  /** The same for changing a page's flags and for unmapping it. */
  lemma ChangeEveryAddress(m: Mem, root: nat, virt: nat, writable: bool, exec: bool, own: Tree,
                           k3: set<nat>, k2: set<nat>, k1: set<nat>)
    requires IsTree(m, own, 3) && own[Root] == root && LowerHalf(virt)
    requires KernelHalf(m, root, k3, k2, k1) && (k3 + k2 + k1) !! own.Values && Walk(m, root, virt).Some?
    ensures var pte := Walk(m, root, virt).value;
            var m' := UpdateFlags(m, root, virt, writable, exec).1;
            && AllWalksBut(m, m', root, virt, true, Some(Entry(pte, UserFlags(writable, exec))))
            && KernelHalf(m', root, k3, k2, k1)
    ensures var m' := UnmapPage(m, root, virt).1;
            AllWalksBut(m, m', root, virt, true, None) && KernelHalf(m', root, k3, k2, k1)
  {
    hide UpdateFlags, UnmapPage, KernelHalf, WalksBut, AllWalksBut, KernelWordsKept, SameExcept, Walk, IsTree;
    UpdateOnTree(m, root, virt, writable, exec, own);
    UnmapOnTree(m, root, virt, own);
    var pte := Walk(m, root, virt).value;
    var updated, unmapped := UpdateFlags(m, root, virt, writable, exec).1, UnmapPage(m, root, virt).1;
    BothHalves(m, updated, root, own.Values, k3, k2, k1, virt, true, Some(Entry(pte, UserFlags(writable, exec))));
    BothHalves(m, unmapped, root, own.Values, k3, k2, k1, virt, true, None);
  }

  // ── What the processor grants ──────────────────────────────────────────────

  function RightsOf(w: Option<nat>): Option<Access> {
    match w
    case None => None
    case Some(word) => Some(Rights(word))
  }

  /** Every user access is as before, except that one to a hit page is now granted `a`. */
  ghost predicate GrantsBut(m: Mem, m': Mem, root: nat, virt: nat, hit: bool, a: Option<Access>) {
    forall v: nat :: LowerHalf(v) ==>
      Hw(m', root, v) == (if hit && Page(v) == Page(virt) then a else Hw(m, root, v))
  }

  lemma WalksGrant(m: Mem, m': Mem, own: Tree, own': Tree, virt: nat, hit: bool, w: Option<nat>)
    requires IsTree(m, own, 3) && IsTree(m', own', 3) && Open(m, own) && Open(m', own')
    requires own'[Root] == own[Root] && WalksBut(m, m', own[Root], virt, hit, w)
    ensures GrantsBut(m, m', own[Root], virt, hit, RightsOf(w))
  {
    hide IsTree, Open, Hw, Walk, Rights, Page;
    TreeNodes(m, own, 3);
    TreeNodes(m', own', 3);
    forall v: nat | LowerHalf(v)
      ensures Hw(m', own[Root], v) == (if hit && Page(v) == Page(virt) then RightsOf(w) else Hw(m, own[Root], v))
    {
      HwIsLeaf(m, own, 3, v);
      HwIsLeaf(m', own', 3, v);
    }
  }

  /** Mapping a page for the process grants the frame with the rights asked for, from user mode,
      and moves no other grant. */
  lemma MapGrants(s: State, root: nat, virt: nat, phys: nat, writable: bool, exec: bool, own: Tree)
    requires Space(s, own, 3) && own[Root] == root && LowerHalf(virt) && Open(s.mem, own)
    ensures var (o, s') := MapPageIn(s, root, virt, phys, UserFlags(writable, exec));
            GrantsBut(s.mem, s'.mem, root, virt, o.Done?, Some(Access(phys / 0x1000 % 0x100_0000_0000, writable, true, exec)))
  {
    hide MapPageIn, IsTree, Open, WalksBut, GrantsBut, SameExcept, Entry, Rights, UserFlags;
    var flags := UserFlags(writable, exec);
    var own' := MapRefinesFlatMap(s, root, virt, phys, flags, own);
    var (o, s') := MapPageIn(s, root, virt, phys, flags);
    TreeNodes(s.mem, own, 3);
    UserEntryFields(phys, writable, exec);
    WalksGrant(s.mem, s'.mem, own, own', virt, o.Done?, IfPresent(Entry(phys, flags)));
    UserWord(phys, writable, exec);
  }

  /** A change of rights grants the same frame with exactly the rights asked for, from user mode,
      and moves no other grant; an unmapping takes the one grant away. */
  lemma ChangeGrants(m: Mem, root: nat, virt: nat, writable: bool, exec: bool, own: Tree)
    requires IsTree(m, own, 3) && own[Root] == root && LowerHalf(virt) && Open(m, own)
    requires Walk(m, root, virt).Some?
    ensures Hw(m, root, virt).Some?
    ensures var frame := Hw(m, root, virt).value.frame;
            GrantsBut(m, UpdateFlags(m, root, virt, writable, exec).1, root, virt, true,
                      Some(Access(frame, writable, true, exec)))
    ensures UnmapPage(m, root, virt).0 == Done(Hw(m, root, virt).value.frame * 4096)
    ensures GrantsBut(m, UnmapPage(m, root, virt).1, root, virt, true, None)
  {
    hide UpdateFlags, UnmapPage, IsTree, Open, WalksBut, GrantsBut, SameExcept, Entry, Rights, UserFlags, Walk, Hw;
    HwIsLeaf(m, own, 3, virt);
    UpdateOnTree(m, root, virt, writable, exec, own);
    UnmapOnTree(m, root, virt, own);
    var pte := Walk(m, root, virt).value;
    TreeNodes(m, own, 3);
    ChangeKeepsOpen(m, root, virt, writable, exec, own);
    WalksGrant(m, UpdateFlags(m, root, virt, writable, exec).1, own, own, virt, true, Some(Entry(pte, UserFlags(writable, exec))));
    WalksGrant(m, UnmapPage(m, root, virt).1, own, own, virt, true, None);
    UserWord(pte, writable, exec);
    FrameIs(pte);
  }

  lemma FrameIs(w: nat)
    ensures Rights(w).frame == w / 0x1000 % 0x100_0000_0000 == FrameNo(w) && PhysOf(w) == FrameNo(w) * 4096
  {
  }

  lemma ChangeKeepsOpen(m: Mem, root: nat, virt: nat, writable: bool, exec: bool, own: Tree)
    requires IsTree(m, own, 3) && own[Root] == root && LowerHalf(virt) && Open(m, own) && Walk(m, root, virt).Some?
    ensures Open(UpdateFlags(m, root, virt, writable, exec).1, own) && Open(UnmapPage(m, root, virt).1, own)
  {
    hide IsTree, Open, Walk, LeafTable, Entry, UserFlags;
    LeafTableOnTree(m, root, virt, own);
    TreeNodes(m, own, 3);
    var w := Entry(m[own[P3(virt)]][I1(virt)], UserFlags(writable, exec));
    LeafWriteOpen(m, UpdateFlags(m, root, virt, writable, exec).1, own, 3, virt, w);
    LeafWriteOpen(m, UnmapPage(m, root, virt).1, own, 3, virt, 0);
  }
}
