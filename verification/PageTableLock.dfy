/** The page-table critical section as aarch64 runs it: a cross-core spin lock taken by the
    first entry on each CPU and a per-CPU depth counter for nested entries, which only come
    from the CPU's own synchronous faults while it holds the lock. Every atomic access and
    every interrupt-mask write is a step of its own, and steps of all CPUs interleave. */
module PageTableLock {

  import opened Options

  const U32: nat := 0x1_0000_0000

  /** A live guard: does it hold the lock, and the interrupt state its entry saved. */
  datatype Guard = Guard(outer: bool, saved: bool)

  /** Where a CPU is: outside, masked but not yet counted, spinning on the lock, in the
      section, or in the three steps that drop the outermost guard. */
  datatype Pc =
    | Out
    | Masked(saved: bool)
    | Waiting(saved: bool)
    | In
    | Zeroed
    | Released(saved: bool)

  /** `irq` is whether interrupts are enabled; `entry` records its value at the last entry
      from outside and is read by no step. */
  datatype Cpu = Cpu(pc: Pc, irq: bool, depth: nat, guards: seq<Guard>, entry: bool)

  datatype State = State(lock: Option<nat>, cpus: seq<Cpu>)

  datatype Action =
    | SetIrq(on: bool)
    | Mask
    | Count
    | Acquire
    | DropNested
    | ZeroDepth
    | Release
    | Restore

  function Last(gs: seq<Guard>): Guard
    requires gs != []
  {
    gs[|gs| - 1]
  }

  /** When a CPU can take a step. A nested entry needs room on the stack for one more
      guard: fewer than 2^32 - 1 are live. */
  predicate CpuEnabled(u: Cpu, lockFree: bool, a: Action) {
    match a
    case SetIrq(_) => u.pc == Out
    case Mask => u.pc == Out || (u.pc == In && |u.guards| < U32 - 1)
    case Count => u.pc.Masked?
    case Acquire => u.pc.Waiting? && lockFree
    case DropNested => u.pc == In && u.guards != [] && !Last(u.guards).outer
    case ZeroDepth => u.pc == In && u.guards != [] && Last(u.guards).outer
    case Release => u.pc == Zeroed && u.guards != []
    case Restore => u.pc.Released?
  }

  predicate Enabled(s: State, c: nat, a: Action) {
    c < |s.cpus| && CpuEnabled(s.cpus[c], s.lock.None?, a)
  }

  function CpuAfter(u: Cpu, a: Action): Cpu
    requires a.DropNested? || a.Release? ==> u.guards != []
    requires a.Count? ==> u.pc.Masked?
    requires a.Acquire? ==> u.pc.Waiting?
    requires a.Restore? ==> u.pc.Released?
  {
    match a
    case SetIrq(on) => u.(irq := on)
    case Mask => u.(pc := Masked(u.irq), irq := false, entry := if u.pc == Out then u.irq else u.entry)
    case Count =>
      var counted := u.(depth := (u.depth + 1) % U32);
      if u.depth == 0 then counted.(pc := Waiting(u.pc.saved))
      else counted.(pc := In, guards := u.guards + [Guard(false, u.pc.saved)])
    case Acquire => u.(pc := In, guards := u.guards + [Guard(true, u.pc.saved)])
    case DropNested => u.(depth := (u.depth + U32 - 1) % U32, guards := u.guards[..|u.guards| - 1])
    case ZeroDepth => u.(pc := Zeroed, depth := 0)
    case Release => u.(pc := Released(Last(u.guards).saved), guards := u.guards[..|u.guards| - 1])
    case Restore => u.(pc := Out, irq := u.pc.saved)
  }

  function LockAfter(lock: Option<nat>, c: nat, a: Action): Option<nat> {
    match a
    case Acquire => Some(c)
    case Release => None
    case _ => lock
  }

  function Step(s: State, c: nat, a: Action): State
    requires Enabled(s, c, a)
  {
    State(LockAfter(s.lock, c, a), s.cpus[c := CpuAfter(s.cpus[c], a)])
  }

  // ── The invariant ──────────────────────────────────────────────────────────

  /** The CPU owns the page tables: it is in the section, or nesting inside it. */
  predicate Holds(u: Cpu) {
    u.pc == In || u.pc == Zeroed || (u.pc.Masked? && u.guards != [])
  }

  /** The first guard is the outer one and saved the entry state; the others are nested. */
  predicate GuardsOk(u: Cpu) {
    forall i :: 0 <= i < |u.guards| ==>
      u.guards[i].outer == (i == 0) && (i == 0 ==> u.guards[i].saved == u.entry)
  }

  predicate CpuOk(u: Cpu) {
    && GuardsOk(u)
    && |u.guards| < U32
    && (u.pc != Out ==> !u.irq)
    && match u.pc
       case Out => u.guards == [] && u.depth == 0
       case Masked(saved) => u.depth == |u.guards| && |u.guards| < U32 - 1 && (u.guards == [] ==> saved == u.entry)
       case Waiting(saved) => u.guards == [] && u.depth == 1 && saved == u.entry
       case In => u.guards != [] && u.depth == |u.guards|
       case Zeroed => |u.guards| == 1 && u.depth == 0
       case Released(saved) => u.guards == [] && u.depth == 0 && saved == u.entry
  }

  ghost predicate Inv(s: State) {
    && (forall c :: 0 <= c < |s.cpus| ==> CpuOk(s.cpus[c]))
    && (forall c: nat :: c < |s.cpus| ==> (Holds(s.cpus[c]) <==> s.lock == Some(c)))
    && (s.lock.Some? ==> s.lock.value < |s.cpus|)
  }

  predicate Initial(s: State) {
    s.lock.None? && forall c :: 0 <= c < |s.cpus| ==>
      s.cpus[c].pc == Out && s.cpus[c].depth == 0 && s.cpus[c].guards == []
  }

  /** What one step does to the CPU that takes it. */
  lemma CpuKept(u: Cpu, a: Action, lock: Option<nat>, c: nat)
    requires CpuOk(u) && CpuEnabled(u, lock.None?, a)
    requires Holds(u) <==> lock == Some(c)
    ensures var u' := CpuAfter(u, a);
            CpuOk(u') && (Holds(u') <==> LockAfter(lock, c, a) == Some(c))
  {
  }

  lemma StepKeeps(s: State, c: nat, a: Action)
    requires Inv(s) && Enabled(s, c, a)
    ensures Inv(Step(s, c, a))
  {
    hide CpuOk, Holds, CpuAfter;
    var s' := Step(s, c, a);
    CpuKept(s.cpus[c], a, s.lock, c);
    forall d: nat | d < |s.cpus| && d != c ensures Holds(s'.cpus[d]) <==> s'.lock == Some(d) {
      LockMoves(s, c, a, d);
    }
  }

  /** A step gives the lock to no other CPU and takes it from no other CPU. */
  lemma LockMoves(s: State, c: nat, a: Action, d: nat)
    requires Inv(s) && Enabled(s, c, a) && d != c
    ensures LockAfter(s.lock, c, a) == Some(d) <==> s.lock == Some(d)
  {
  }

  // ── Runs ───────────────────────────────────────────────────────────────────

  datatype Move = Move(cpu: nat, action: Action)

  /** The states of a run, first to last; every move must be enabled where it is taken. */
  ghost predicate IsRun(states: seq<State>, moves: seq<Move>) {
    && |states| == |moves| + 1 && Initial(states[0])
    && forall k :: 0 <= k < |moves| ==>
         && Enabled(states[k], moves[k].cpu, moves[k].action)
         && states[k + 1] == Step(states[k], moves[k].cpu, moves[k].action)
  }

  lemma {:induction false} RunInv(states: seq<State>, moves: seq<Move>, k: nat)
    requires IsRun(states, moves) && k < |states|
    ensures Inv(states[k]) && |states[k].cpus| == |states[0].cpus|
  {
    if k > 0 {
      RunInv(states, moves, k - 1);
      StepKeeps(states[k - 1], moves[k - 1].cpu, moves[k - 1].action);
    }
  }

  /** At most one CPU is in the section, in every state of every run. */
  lemma MutualExclusion(states: seq<State>, moves: seq<Move>, k: nat, c: nat, d: nat)
    requires IsRun(states, moves) && k < |states| && c < |states[k].cpus| && d < |states[k].cpus|
    requires states[k].cpus[c].guards != [] && states[k].cpus[d].guards != []
    ensures c == d && states[k].lock == Some(c)
  {
    RunInv(states, moves, k);
    assert CpuOk(states[k].cpus[c]) && CpuOk(states[k].cpus[d]);
    assert Holds(states[k].cpus[c]) && Holds(states[k].cpus[d]);
  }

  /** From the entry of a CPU until it is outside again, its interrupts are masked. */
  lemma MaskedInside(states: seq<State>, moves: seq<Move>, k: nat, c: nat)
    requires IsRun(states, moves) && k < |states| && c < |states[k].cpus| && states[k].cpus[c].pc != Out
    ensures !states[k].cpus[c].irq
  {
    RunInv(states, moves, k);
    assert CpuOk(states[k].cpus[c]);
  }

  /** The state after a CPU's steps, if each is enabled where it is taken. */
  function Steps(s: State, c: nat, actions: seq<Action>): Option<State>
    decreases |actions|
  {
    if actions == [] then Some(s)
    else if Enabled(s, c, actions[0]) then Steps(Step(s, c, actions[0]), c, actions[1..])
    else None
  }

  lemma StepsMore(s: State, c: nat, a: Action, rest: seq<Action>)
    requires Enabled(s, c, a)
    ensures Steps(s, c, [a] + rest) == Steps(Step(s, c, a), c, rest)
  {
    hide Enabled, Step;
    assert ([a] + rest)[1..] == rest;
  }

  /** A nested entry and its drop go through without waiting and leave everything as it was. */
  lemma NestedLeavesAll(states: seq<State>, moves: seq<Move>, k: nat, c: nat)
    requires IsRun(states, moves) && k < |states| && c < |states[k].cpus|
    requires states[k].cpus[c].pc == In && |states[k].cpus[c].guards| < 0xFFFF_FFFF
    ensures Steps(states[k], c, [Mask, Count, DropNested]) == Some(states[k])
  {
    RunInv(states, moves, k);
    var s0 := states[k];
    var u := s0.cpus[c];
    assert CpuOk(u);
    var s1 := Step(s0, c, Mask);
    var s2 := Step(s1, c, Count);
    var s3 := Step(s2, c, DropNested);
    StepsMore(s0, c, Mask, [Count, DropNested]);
    StepsMore(s1, c, Count, [DropNested]);
    StepsMore(s2, c, DropNested, []);
    assert [Mask, Count, DropNested] == [Mask] + [Count, DropNested] && [Count, DropNested] == [Count] + [DropNested];
    assert s3.cpus[c] == u && s3.cpus == s0.cpus;
  }

  /** An outermost entry to a free lock and its drop go through, take and release the lock, and
      leave all but the recorded entry state as it was. */
  lemma OuterLeavesAll(states: seq<State>, moves: seq<Move>, k: nat, c: nat)
    requires IsRun(states, moves) && k < |states| && c < |states[k].cpus|
    requires states[k].cpus[c].pc == Out && states[k].lock == None
    ensures var s := states[k];
            && Steps(s, c, [Mask, Count, Acquire]).Some? && Steps(s, c, [Mask, Count, Acquire]).value.lock == Some(c)
            && Steps(s, c, [Mask, Count, Acquire] + [ZeroDepth, Release, Restore]) ==
               Some(s.(cpus := s.cpus[c := s.cpus[c].(entry := s.cpus[c].irq)]))
  {
    hide CpuEnabled;
    RunInv(states, moves, k);
    var s0 := states[k];
    assert CpuOk(s0.cpus[c]);
    Enters(s0, c);
    var s3 := Steps(s0, c, [Mask, Count, Acquire]).value;
    StepsJoin(s0, c, [Mask, Count, Acquire], [ZeroDepth, Release, Restore]);
    Leaves(s3, c);
    var u := s0.cpus[c];
    assert u.(entry := u.irq) == Cpu(Out, u.irq, 0, [], u.irq);
    assert s3.cpus[c := u.(entry := u.irq)] == s0.cpus[c := u.(entry := u.irq)];
  }

  lemma {:induction false} StepsJoin(s: State, c: nat, a: seq<Action>, b: seq<Action>)
    requires Steps(s, c, a).Some?
    ensures Steps(s, c, a + b) == Steps(Steps(s, c, a).value, c, b)
    decreases |a|
  {
    hide Enabled, Step;
    if a == [] {
      assert a + b == b;
    } else {
      assert (a + b)[1..] == a[1..] + b;
      StepsJoin(Step(s, c, a[0]), c, a[1..], b);
    }
  }

  lemma Enters(s: State, c: nat)
    requires c < |s.cpus| && s.lock == None && CpuOk(s.cpus[c]) && s.cpus[c].pc == Out
    ensures var u := s.cpus[c];
            Steps(s, c, [Mask, Count, Acquire]) ==
            Some(State(Some(c), s.cpus[c := Cpu(In, false, 1, [Guard(true, u.irq)], u.irq)]))
  {
    var s1 := Step(s, c, Mask);
    var s2 := Step(s1, c, Count);
    var s3 := Step(s2, c, Acquire);
    StepsMore(s, c, Mask, [Count, Acquire]);
    StepsMore(s1, c, Count, [Acquire]);
    StepsMore(s2, c, Acquire, []);
    assert [Mask, Count, Acquire] == [Mask] + [Count, Acquire] && [Count, Acquire] == [Count] + [Acquire];
    var u := s.cpus[c];
    assert u.guards + [Guard(true, u.irq)] == [Guard(true, u.irq)];
    assert s3.cpus[c] == Cpu(In, false, 1, [Guard(true, u.irq)], u.irq);
    assert s3.cpus == s.cpus[c := s3.cpus[c]];
  }

  lemma Leaves(s: State, c: nat)
    requires c < |s.cpus| && s.cpus[c].pc == In && |s.cpus[c].guards| == 1 && s.cpus[c].guards[0].outer
    ensures var u := s.cpus[c];
            Steps(s, c, [ZeroDepth, Release, Restore]) ==
            Some(State(None, s.cpus[c := Cpu(Out, u.guards[0].saved, 0, [], u.entry)]))
  {
    var s1 := Step(s, c, ZeroDepth);
    var s2 := Step(s1, c, Release);
    var s3 := Step(s2, c, Restore);
    StepsMore(s, c, ZeroDepth, [Release, Restore]);
    StepsMore(s1, c, Release, [Restore]);
    StepsMore(s2, c, Restore, []);
    assert [ZeroDepth, Release, Restore] == [ZeroDepth] + [Release, Restore] && [Release, Restore] == [Release] + [Restore];
    assert s3.cpus == s.cpus[c := s3.cpus[c]];
  }

  /** A CPU that already holds the lock never waits for it: its nested entry goes straight
      back into the section, one guard deeper, and takes no lock. */
  lemma NestedNeverWaits(states: seq<State>, moves: seq<Move>, k: nat, c: nat)
    requires IsRun(states, moves) && k < |states| && c < |states[k].cpus|
    requires states[k].lock == Some(c)
    ensures !states[k].cpus[c].pc.Waiting?
    ensures states[k].cpus[c].pc.Masked? ==>
              var s' := Step(states[k], c, Count);
              s'.cpus[c].pc == In && s'.lock == Some(c) && |s'.cpus[c].guards| == |states[k].cpus[c].guards| + 1
  {
    RunInv(states, moves, k);
    assert CpuOk(states[k].cpus[c]);
  }

  /** Outside the section a CPU's depth is 0 and it does not hold the lock. */
  lemma OutsideIsClean(states: seq<State>, moves: seq<Move>, k: nat, c: nat)
    requires IsRun(states, moves) && k < |states| && c < |states[k].cpus| && states[k].cpus[c].pc == Out
    ensures states[k].cpus[c].depth == 0 && states[k].cpus[c].guards == [] && states[k].lock != Some(c)
  {
    RunInv(states, moves, k);
    assert CpuOk(states[k].cpus[c]);
  }

  /** Only an entry from outside writes the recorded entry state. */
  lemma EntryStep(s: State, m: Move, c: nat)
    requires Enabled(s, m.cpu, m.action) && c < |s.cpus|
    ensures var s' := Step(s, m.cpu, m.action);
            && |s'.cpus| == |s.cpus|
            && (s.cpus[c].pc != Out ==> s'.cpus[c].entry == s.cpus[c].entry)
            && (s.cpus[c].pc == Out && m == Move(c, Mask) ==> s'.cpus[c].entry == s.cpus[c].irq)
  {
  }

  /** While a CPU is not outside, the recorded entry state does not move. */
  lemma {:induction false} EntryKept(states: seq<State>, moves: seq<Move>, c: nat, i: nat, j: nat)
    requires IsRun(states, moves) && i < j < |states| && c < |states[i].cpus|
    requires forall k :: i < k < j ==> c < |states[k].cpus| && states[k].cpus[c].pc != Out
    requires states[i].cpus[c].pc == Out && moves[i] == Move(c, Mask)
    ensures c < |states[j].cpus| && states[j].cpus[c].entry == states[i].cpus[c].irq
    decreases j
  {
    hide CpuAfter, CpuEnabled;
    EntryStep(states[j - 1], moves[j - 1], c);
    if j > i + 1 {
      EntryKept(states, moves, c, i, j - 1);
    }
  }

  /** From the outermost entry of a CPU to the step that takes it outside again, whatever
      nests in between, its interrupt state is restored to what it was. */
  lemma IrqRestored(states: seq<State>, moves: seq<Move>, c: nat, i: nat, j: nat)
    requires IsRun(states, moves) && i < j < |states| && c < |states[i].cpus| && c < |states[j].cpus|
    requires states[i].cpus[c].pc == Out && moves[i] == Move(c, Mask)
    requires forall k :: i < k < j ==> c < |states[k].cpus| && states[k].cpus[c].pc != Out
    requires states[j].cpus[c].pc == Out
    ensures states[j].cpus[c].irq == states[i].cpus[c].irq
    ensures states[j].cpus[c].depth == 0 && states[j].lock != Some(c)
  {
    RunInv(states, moves, i);
    RunInv(states, moves, j - 1);
    OutsideIsClean(states, moves, j, c);
    assert j > i + 1;
    EntryKept(states, moves, c, i, j - 1);
    assert CpuOk(states[j - 1].cpus[c]);
  }

  /** No deadlock: while some CPU is not outside, some CPU can move on. */
  lemma SomeoneMoves(states: seq<State>, moves: seq<Move>, k: nat, c: nat)
    requires IsRun(states, moves) && k < |states| && c < |states[k].cpus| && states[k].cpus[c].pc != Out
    ensures exists d, a :: Enabled(states[k], d, a) && !a.SetIrq? && !a.Mask?
  {
    RunInv(states, moves, k);
    var s := states[k];
    var d := if s.cpus[c].pc.Waiting? && s.lock.Some? then s.lock.value else c;
    var u := s.cpus[d];
    assert CpuOk(u);
    var a := match u.pc
      case Masked(_) => Count
      case Waiting(_) => Acquire
      case In => if Last(u.guards).outer then ZeroDepth else DropNested
      case Zeroed => Release
      case _ => Restore;
    assert Enabled(s, d, a);
  }
}
