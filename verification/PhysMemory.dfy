/** Physical memory as the page-table code sees it: a map from frame number to 512 words,
    with the set of free frames beside it. A table is named by its frame number, and a
    tree of tables by the paths from its root. */
module PhysMemory {

  /** `phys_to_virt` and `walk_table` refuse addresses from 16 GiB up: frame 2^22. */
  const LIMIT: nat := 0x40_0000
  const ENTRIES: nat := 512

  type Table = t: seq<nat> | |t| == ENTRIES witness seq(ENTRIES, _ => 0)

  function ZeroTable(): (t: Table)
    ensures forall i :: 0 <= i < ENTRIES ==> t[i] == 0
  {
    seq(ENTRIES, _ => 0)
  }

  type Mem = m: map<nat, Table> | forall f: nat :: f < LIMIT ==> f in m
    witness map f: nat | f < LIMIT :: ZeroTable()

  /** One word written in place. */
  function Write(m: Mem, t: nat, i: nat, w: nat): Mem
    requires t < LIMIT && i < ENTRIES
  {
    m[t := m[t][i := w]]
  }

  /** One frame filled with zero bytes. */
  function Clear(m: Mem, f: nat): Mem
    requires f < LIMIT
  {
    m[f := ZeroTable()]
  }

  ghost predicate SameExcept(m: Mem, m': Mem, frames: set<nat>) {
    forall f: nat :: f < LIMIT && f !in frames ==> m'[f] == m[f]
  }

  // ── Free frames ────────────────────────────────────────────────────────────

  type FreeSet = s: set<nat> | forall f: nat :: f in s ==> 256 <= f < 0x10_0000 witness {}

  datatype State = State(mem: Mem, free: FreeSet)

  /** An operation ends well, fails, or hits the panic on a corrupt table pointer. */
  datatype Outcome<+T> = Done(value: T) | Failed | Panicked

  ghost predicate IsLeast(s: set<nat>, f: nat) {
    f in s && forall g: nat :: g in s ==> f <= g
  }

  lemma {:induction false} LeastExists(s: set<nat>) returns (f: nat)
    requires s != {}
    ensures IsLeast(s, f)
  {
    f :| f in s;
    var rest := s - {f};
    if rest != {} {
      var g := LeastExists(rest);
      f := if f < g then f else g;
    }
    assert forall g: nat :: g in s ==> g in rest || g == f || f <= g;
  }

  /** The frame the allocator hands out next. */
  ghost function Least(s: set<nat>): (f: nat)
    requires s != {}
    ensures IsLeast(s, f)
  {
    assert exists f :: IsLeast(s, f) by { var f := LeastExists(s); }
    var f :| IsLeast(s, f);
    f
  }

  /** The memory after the next free frame is taken and zeroed. */
  ghost function Taken(s: State): State
    requires s.free != {}
  {
    State(Clear(s.mem, Least(s.free)), s.free - {Least(s.free)})
  }

  // ── Trees ──────────────────────────────────────────────────────────────────

  /** Where a frame hangs in the tree: the root, or an entry of a table. */
  datatype Path = Root | Child(parent: Path, index: nat)

  type Tree = map<Path, nat>

  ghost function Depth(p: Path): nat {
    if p.Root? then 0 else 1 + Depth(p.parent)
  }
}
