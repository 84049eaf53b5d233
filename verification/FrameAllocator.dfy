/** The physical frame allocator: a bitmap with one bit per 4 KiB frame, set when the
    frame is free. A `u64` of the bitmap is modelled as its 64 bits, least significant
    first, so a shift-and-mask on one bit is an index. */
module FrameAllocator {

  import opened Options

  const FRAME_SIZE: nat := 4096
  const MAX_FRAMES: nat := 0x10_0000
  const MIN_ALLOC_FRAME: nat := 256
  const WORDS: nat := MAX_FRAMES / 64

  type Word = w: seq<bool> | |w| == 64 witness seq(64, _ => false)

  const ZERO: Word := seq(64, _ => false)

  function TrailingZeros(w: Word, from: nat := 0): (b: nat)
    requires from <= 64
    requires exists k :: from <= k < 64 && w[k]
    ensures from <= b < 64 && w[b]
    ensures forall k :: from <= k < b ==> !w[k]
    decreases 64 - from
  {
    if w[from] then from else TrailingZeros(w, from + 1)
  }

  const U64: nat := 0x1_0000_0000_0000_0000

  type Address = a: nat | a < U64

  /** A usable region of the boot memory map, in bytes. */
  datatype Region = Region(base: Address, len: Address)

  function FirstFrame(r: Region): nat {
    var s := r.base / FRAME_SIZE;
    if s < MIN_ALLOC_FRAME then MIN_ALLOC_FRAME else s
  }

  /** The end wraps with the sum. */
  function EndFrame(r: Region): nat {
    var e := (r.base + r.len) % U64 / FRAME_SIZE;
    if e < MAX_FRAMES then e else MAX_FRAMES
  }

  function Range(a: nat, b: nat): (s: set<nat>)
    ensures forall f: nat :: f in s <==> a <= f < b
    ensures |s| == if a <= b then b - a else 0
  {
    if a < b then Range(a, b - 1) + {b - 1} else {}
  }

  ghost function FramesOf(r: Region): set<nat> {
    Range(FirstFrame(r), EndFrame(r))
  }

  /** Frame `f` lies above the first mebibyte and below 4 GiB, ends inside the region's bytes
      and does not lie wholly before them: a first frame that is only partly usable is given. */
  predicate Gives(r: Region, f: nat) {
    && 0x10_0000 <= f * 4096 < 0x1_0000_0000
    && r.base < (f + 1) * 4096 <= (r.base + r.len) % 0x1_0000_0000_0000_0000
  }

  lemma FramesAreGiven(r: Region, f: nat)
    ensures f in FramesOf(r) <==> Gives(r, f)
  {
    var e := (r.base + r.len) % U64;
    assert r.base / 4096 <= f <==> r.base < (f + 1) * 4096;
    assert f < e / 4096 <==> (f + 1) * 4096 <= e;
  }

  lemma CoveredAreGiven(rs: seq<Region>, f: nat)
    ensures f in Covered(rs) <==> exists i :: 0 <= i < |rs| && Gives(rs[i], f)
  {
    hide Gives, FramesOf;
    InCovered(rs, f);
    forall i | 0 <= i < |rs| ensures f in FramesOf(rs[i]) <==> Gives(rs[i], f) {
      FramesAreGiven(rs[i], f);
    }
  }

  ghost function Covered(rs: seq<Region>): (s: set<nat>)
    ensures forall f: nat :: f in s ==> MIN_ALLOC_FRAME <= f < MAX_FRAMES
  {
    if rs == [] then {} else Covered(rs[..|rs| - 1]) + FramesOf(rs[|rs| - 1])
  }

  /** What `mark_free` adds to `total`, one per frame of every region. */
  ghost function Marks(rs: seq<Region>): nat {
    if rs == [] then 0
    else Marks(rs[..|rs| - 1]) + |FramesOf(rs[|rs| - 1])|
  }

  ghost predicate FrameDisjoint(rs: seq<Region>) {
    forall i, j :: 0 <= i < j < |rs| ==> FramesOf(rs[i]) !! FramesOf(rs[j])
  }

  lemma {:induction false} InCovered(rs: seq<Region>, f: nat)
    ensures f in Covered(rs) <==> exists i :: 0 <= i < |rs| && f in FramesOf(rs[i])
  {
    if rs != [] {
      InCovered(rs[..|rs| - 1], f);
      assert forall i :: 0 <= i < |rs| - 1 ==> rs[..|rs| - 1][i] == rs[i];
    }
  }

  lemma CoveredStep(rs: seq<Region>, k: nat)
    requires k < |rs|
    ensures Covered(rs[..k + 1]) == Covered(rs[..k]) + FramesOf(rs[k])
    ensures Marks(rs[..k + 1]) == Marks(rs[..k]) + |FramesOf(rs[k])|
  {
    assert rs[..k + 1][..k] == rs[..k];
  }

  /** Counting every mark overstates the usable frames exactly when two regions share a
      frame: the accounting of `total` is right if and only if they do not. */
  lemma {:induction false} MarksCountFrames(rs: seq<Region>)
    ensures Marks(rs) >= |Covered(rs)|
    ensures Marks(rs) == |Covered(rs)| <==> FrameDisjoint(rs)
  {
    if rs != [] {
      var n := |rs| - 1;
      MarksCountFrames(rs[..n]);
      UnionSize(Covered(rs[..n]), FramesOf(rs[n]));
      DisjointStep(rs);
    }
  }

  lemma DisjointStep(rs: seq<Region>)
    requires rs != []
    ensures var n := |rs| - 1;
            FrameDisjoint(rs) <==> FrameDisjoint(rs[..n]) && Covered(rs[..n]) !! FramesOf(rs[n])
  {
    hide FramesOf, Covered;
    var n := |rs| - 1;
    var front := rs[..n];
    CoveredDisjoint(front, FramesOf(rs[n]));
    assert forall i :: 0 <= i < n ==> front[i] == rs[i];
    assert FrameDisjoint(rs) ==> FrameDisjoint(front);
    if FrameDisjoint(front) && Covered(front) !! FramesOf(rs[n]) {
      forall i, j | 0 <= i < j < |rs| ensures FramesOf(rs[i]) !! FramesOf(rs[j]) {
        assert j < n ==> FramesOf(front[i]) !! FramesOf(front[j]);
        assert FramesOf(front[i]) !! FramesOf(rs[n]);
      }
    }
  }

  lemma CoveredDisjoint(rs: seq<Region>, s: set<nat>)
    ensures Covered(rs) !! s <==> forall i :: 0 <= i < |rs| ==> FramesOf(rs[i]) !! s
  {
    forall f: nat | f in s
      ensures f in Covered(rs) <==> exists i :: 0 <= i < |rs| && f in FramesOf(rs[i])
    {
      InCovered(rs, f);
    }
  }

  lemma UnionSize<T>(a: set<T>, b: set<T>)
    ensures |a + b| <= |a| + |b|
    ensures |a + b| == |a| + |b| <==> a !! b
  {
    assert a + b == a + (b - a) && b == (b - a) + a * b;
    assert |a + b| == |a| + |b - a| && |b| == |b - a| + |a * b|;
    if |a * b| == 0 { assert a * b == {}; }
  }

  lemma SubsetSize<T>(a: set<T>, b: set<T>)
    requires a <= b
    ensures |b - a| == |b| - |a|
  {
  }

  ghost predicate FreeRun(s: set<nat>, start: nat, count: nat) {
    forall f: nat :: start <= f < start + count ==> f in s
  }

  ghost predicate LowestRun(s: set<nat>, start: nat, count: nat) {
    FreeRun(s, start, count) && forall t: nat :: FreeRun(s, t, count) ==> start <= t
  }

  lemma RunIsFree(s: set<nat>, start: nat, count: nat)
    requires LowestRun(s, start, count)
    ensures FreeRun(s, start, count)
  {
  }

  /** The scan up to `frame` holds the maximal run that ends there, `len` frames from
      `start`, and has passed no run of `count`. */
  ghost predicate Scanned(s: set<nat>, frame: nat, start: nat, len: nat, count: nat) {
    && start + len == frame && len < count
    && FreeRun(s, start, len)
    && (start == 0 || start - 1 !in s)
    && (forall t: nat :: t + count <= frame ==> !FreeRun(s, t, count))
  }

  lemma ScanStep(s: set<nat>, frame: nat, start: nat, len: nat, count: nat)
    requires Scanned(s, frame, start, len, count)
    ensures frame !in s ==> Scanned(s, frame + 1, frame + 1, 0, count)
    ensures frame in s && len + 1 < count ==> Scanned(s, frame + 1, start, len + 1, count)
    ensures frame in s && len + 1 == count ==> LowestRun(s, start, count)
  {
  }

  datatype FrameOp = AllocOne | AllocRun(count: nat) | Release(phys: nat)

  /** Whoever frees a frame holds it. */
  predicate FreesHeld(op: FrameOp, held: set<nat>) {
    op.Release? ==> op.phys / FRAME_SIZE in held
  }

  class FrameBitmap {
    const bits: array<Word>
    var total: nat
    var used: nat
    /** The frames whose bit is set. */
    ghost var free: set<nat>
    /** Every frame the boot memory map gave to the allocator. */
    ghost var usable: set<nat>

    ghost predicate Rep()
      reads this, bits
    {
      && bits.Length == WORDS
      && (forall i, b :: 0 <= i < WORDS && 0 <= b < 64 ==> (bits[i][b] <==> i * 64 + b in free))
      && (forall f: nat :: f in free ==> f < MAX_FRAMES)
    }

    /** `used` and `total` count the free set, and only usable frames are free. */
    ghost predicate Counted()
      reads this
    {
      && (forall f: nat :: f in usable ==> MIN_ALLOC_FRAME <= f < MAX_FRAMES)
      && free <= usable
      && total == |usable|
      && |free| + used == total
    }

    ghost predicate Valid()
      reads this, bits
    {
      Rep() && Counted()
    }

    constructor ()
      ensures Valid() && fresh(bits)
      ensures free == {} && usable == {}
    {
      bits := new Word[WORDS](_ => ZERO);
      total, used, free, usable := 0, 0, {}, {};
    }

    predicate IsFree(f: nat)
      requires Rep() && f < MAX_FRAMES
      reads this, bits
      ensures IsFree(f) <==> f in free
    {
      assert f / 64 * 64 + f % 64 == f;
      bits[f / 64][f % 64]
    }

    /** Writes the bit of one frame and no other bit. */
    method SetBit(f: nat, on: bool)
      requires Rep() && f < MAX_FRAMES
      modifies bits, `free
      ensures Rep()
      ensures free == if on then old(free) + {f} else old(free) - {f}
    {
      bits[f / 64] := bits[f / 64][f % 64 := on];
      free := if on then free + {f} else free - {f};
    }

    method MarkFree(f: nat)
      requires Rep() && f < MAX_FRAMES
      modifies bits, `free, `total
      ensures Rep()
      ensures free == old(free) + {f}
      ensures total == old(total) + 1
    {
      SetBit(f, true);
      total := total + 1;
    }

    method MarkRegion(r: Region)
      requires Rep()
      modifies bits, `free, `total
      ensures Rep() && free == old(free) + FramesOf(r)
      ensures total == old(total) + |FramesOf(r)|
    {
      hide Range;
      var lo, hi := FirstFrame(r), EndFrame(r);
      var f := lo;
      while f < hi
        invariant lo <= f && (f <= hi || f == lo)
        invariant Rep() && free == old(free) + Range(lo, f)
        invariant total == old(total) + (f - lo)
      {
        MarkFree(f);
        f := f + 1;
      }
      assert Range(lo, f) == FramesOf(r);
    }

    method MarkRegions(rs: seq<Region>)
      requires Rep() && free == {} && total == 0
      modifies bits, `free, `total
      ensures Rep() && free == Covered(rs) && total == Marks(rs)
    {
      for k := 0 to |rs|
        invariant Rep() && free == Covered(rs[..k]) && total == Marks(rs[..k])
      {
        MarkRegion(rs[k]);
        CoveredStep(rs, k);
      }
      assert rs[..|rs|] == rs;
    }

    /** The bitmap holds exactly the frames of the regions, clamped to the managed span,
        all free; the counters agree with it if and only if no two regions share a frame. */
    method InitFromRegions(rs: seq<Region>)
      requires Valid() && usable == {}
      modifies this, bits
      ensures Rep() && free == usable == Covered(rs) && used == 0 && total == Marks(rs)
      ensures forall f: nat :: f in free <==> exists i :: 0 <= i < |rs| && Gives(rs[i], f)
      ensures Valid() <==> FrameDisjoint(rs)
    {
      hide Marks, FramesOf, FrameDisjoint, Covered, Gives;
      MarkRegions(rs);
      usable := free;
      MarksCountFrames(rs);
      forall f: nat ensures f in free <==> exists i :: 0 <= i < |rs| && Gives(rs[i], f) {
        CoveredAreGiven(rs, f);
      }
    }

    /** Takes the frames of a byte range, rounded outward, out of the free set. When the rounded
        end passes 2^64 it wraps, and only the frames below the wrapped end are taken. */
    method ReserveRange(base: Address, len: Address)
      requires Valid()
      modifies bits, `free, `used
      ensures Valid()
      ensures len == 0 ==> free == old(free)
      ensures len > 0 && base + len + FRAME_SIZE <= U64 ==> forall f: nat :: f in free <==>
                f in old(free) && (f * FRAME_SIZE + FRAME_SIZE <= base || base + len <= f * FRAME_SIZE)
      ensures len > 0 && base + len + FRAME_SIZE > U64 ==> forall f: nat :: f in free <==>
                f in old(free) && !(base / FRAME_SIZE <= f < (base + len + FRAME_SIZE - 1 - U64) / FRAME_SIZE)
    {
      if len == 0 { return; }
      var start := base / FRAME_SIZE;
      var rounded := (base + len + FRAME_SIZE - 1) % U64 / FRAME_SIZE;
      var end := if rounded < MAX_FRAMES then rounded else MAX_FRAMES;
      var f := start;
      while f < end
        invariant Valid()
        invariant start <= f && (f <= end || f == start)
        invariant forall g: nat :: g in free <==> g in old(free) && !(start <= g < f)
      {
        if IsFree(f) {
          Take(f);
        }
        f := f + 1;
      }
    }

    /** Clears the bit of a free frame and counts it as used. */
    method Take(f: nat)
      requires Valid() && f in free
      modifies bits, `free, `used
      ensures Valid()
      ensures free == old(free) - {f} && used == old(used) + 1
    {
      SetBit(f, false);
      used := used + 1;
    }

    /** Returns the least free frame, which is never below 1 MiB, or None exactly when
        nothing is free. */
    method Alloc() returns (r: Option<nat>)
      requires Valid()
      modifies bits, `free, `used
      ensures Valid()
      ensures r.None? <==> old(free) == {}
      ensures r.None? ==> free == old(free) && used == old(used)
      ensures r.Some? ==>
                && r.value % FRAME_SIZE == 0
                && var f := r.value / FRAME_SIZE;
                && f in old(free) && free == old(free) - {f}
                && 0x10_0000 <= r.value < 0x1_0000_0000 && used == old(used) + 1
                && forall g: nat :: g in old(free) ==> f <= g
    {
      var i := MIN_ALLOC_FRAME / 64;
      while i < WORDS
        invariant MIN_ALLOC_FRAME / 64 <= i <= WORDS
        invariant Valid() && free == old(free) && used == old(used)
        invariant AllFrom(i * 64)
      {
        if exists b :: 0 <= b < 64 && bits[i][b] {
          var bit := TrailingZeros(bits[i]);
          FirstSetBit(i, bit);
          Take(i * 64 + bit);
          return Some((i * 64 + bit) * FRAME_SIZE);
        }
        FirstSetBit(i, 64);
        i := i + 1;
      }
      return None;
    }

    ghost predicate AllFrom(low: nat)
      reads this
    {
      forall f: nat :: f in free ==> low <= f
    }

    /** When no bit below `b` is set in the first non-empty word, no lower frame is free. */
    lemma FirstSetBit(i: nat, b: nat)
      requires Rep() && i < WORDS && b <= 64
      requires AllFrom(i * 64)
      requires forall k :: 0 <= k < b ==> !bits[i][k]
      ensures AllFrom(i * 64 + b)
    {
      forall f: nat | f in free ensures i * 64 + b <= f {
        assert f / 64 * 64 + f % 64 == f && i <= f / 64;
        assert bits[f / 64][f % 64];
      }
    }

    /** Finds the lowest run of `count` free frames, and fails exactly when there is none. */
    method FindRun(count: nat) returns (r: Option<nat>)
      requires Valid() && count > 0
      ensures r.None? ==> forall s: nat :: !FreeRun(free, s, count)
      ensures r.Some? ==> LowestRun(free, r.value, count)
    {
      var runStart: nat, runLen: nat := 0, 0;
      assert forall t: nat :: FreeRun(free, t, count) ==> t in free;
      for frame := MIN_ALLOC_FRAME to MAX_FRAMES
        invariant Scanned(free, frame, if runLen == 0 then frame else runStart, runLen, count)
      {
        ScanStep(free, frame, if runLen == 0 then frame else runStart, runLen, count);
        if IsFree(frame) {
          if runLen == 0 { runStart := frame; }
          runLen := runLen + 1;
          if runLen == count { return Some(runStart); }
        } else {
          runLen := 0;
        }
      }
      forall s: nat ensures !FreeRun(free, s, count) {
        assert FreeRun(free, s, count) ==> s + count - 1 in free;
      }
      return None;
    }

    /** Takes the lowest run of `count` free frames, and returns None exactly when there is
        no such run (or the count is 0). */
    method AllocContiguous(count: nat) returns (r: Option<nat>)
      requires Valid()
      modifies bits, `free, `used
      ensures Valid()
      ensures r.None? <==> count == 0 || forall s: nat :: !FreeRun(old(free), s, count)
      ensures r.None? ==> free == old(free) && used == old(used)
      ensures r.Some? ==>
                && r.value % FRAME_SIZE == 0
                && var s := r.value / FRAME_SIZE;
                && LowestRun(old(free), s, count) && used == old(used) + count
                && free == old(free) - Range(s, s + count)
    {
      hide Range, LowestRun;
      r := None;
      if count > 0 {
        var run := FindRun(count);
        if run.Some? {
          RunIsFree(free, run.value, count);
          TakeRun(run.value, count);
          r := Some(run.value * FRAME_SIZE);
        }
      }
    }

    method TakeRun(start: nat, count: nat)
      requires Valid() && FreeRun(free, start, count)
      modifies bits, `free, `used
      ensures Valid() && used == old(used) + count
      ensures free == old(free) - Range(start, start + count)
    {
      hide Range;
      var f := start;
      while f < start + count
        invariant start <= f <= start + count
        invariant Valid() && used == old(used) + (f - start)
        invariant free == old(free) - Range(start, f)
      {
        assert f in free;
        Take(f);
        f := f + 1;
      }
    }

    /** Freeing a taken usable frame puts it back; freeing a free frame or an address past
        the managed span does nothing. The accounting survives exactly when the frame is
        one of those. */
    method Free(phys: nat)
      requires Valid()
      modifies bits, `free, `used
      ensures free == if phys / FRAME_SIZE < MAX_FRAMES then old(free) + {phys / FRAME_SIZE} else old(free)
      ensures var taken := phys / FRAME_SIZE < MAX_FRAMES && phys / FRAME_SIZE !in old(free);
              used == if taken && old(used) > 0 then old(used) - 1 else old(used)
      ensures Rep() && (Valid() <==> phys / FRAME_SIZE in usable || phys / FRAME_SIZE >= MAX_FRAMES)
    {
      var frame := phys / FRAME_SIZE;
      ghost var before := free;
      if frame < MAX_FRAMES {
        if !IsFree(frame) {
          SetBit(frame, true);
          used := if used == 0 then 0 else used - 1;
          if frame in usable {
            SubsetSize(before, usable);
            assert frame in usable - before;
          }
        }
      }
    }

    /** One operation by callers who together hold the frames `held`: what it hands out none
        of them holds, and held and free frames together stay the same. */
    method Perform(op: FrameOp, held: set<nat>) returns (handed: set<nat>, now: set<nat>)
      requires Valid() && held !! free && held <= usable && FreesHeld(op, held)
      modifies bits, `free, `used
      ensures Valid() && handed !! held && handed <= old(free)
      ensures now == if op.Release? then held - {op.phys / FRAME_SIZE} else held + handed
      ensures now !! free && now <= usable && now + free == held + old(free)
    {
      hide Range, Rep, LowestRun, FreeRun, Counted;
      ghost var before := free;
      FreeUsable();
      match op {
        case AllocOne => handed := HandOne();
        case AllocRun(count) => handed := HandRun(count);
        case Release(phys) =>
          handed := {};
          ReleaseOne(phys);
      }
      now := if op.Release? then held - {op.phys / FRAME_SIZE} else held + handed;
    }

    lemma FreeUsable()
      requires Valid()
      ensures free <= usable && forall f: nat :: f in usable ==> f < MAX_FRAMES
    {
      hide Rep;
    }

    method HandOne() returns (handed: set<nat>)
      requires Valid()
      modifies bits, `free, `used
      ensures Valid() && handed <= old(free) && free == old(free) - handed
    {
      hide Rep;
      var r := Alloc();
      handed := if r.Some? then {r.value / FRAME_SIZE} else {};
    }

    method HandRun(count: nat) returns (handed: set<nat>)
      requires Valid()
      modifies bits, `free, `used
      ensures Valid() && handed <= old(free) && free == old(free) - handed
    {
      hide Rep, Range, LowestRun, Counted;
      handed := {};
      var r := AllocContiguous(count);
      if r.Some? {
        var s := r.value / FRAME_SIZE;
        RunIsFree(old(free), s, count);
        handed := Range(s, s + count);
      }
    }

    method ReleaseOne(phys: nat)
      requires Valid() && phys / FRAME_SIZE in usable
      modifies bits, `free, `used
      ensures Valid() && free == old(free) + {phys / FRAME_SIZE}
    {
      hide Rep;
      Free(phys);
    }

    /** Over every run that frees only held frames, set bits and `used` add up to `total`, no
        held frame is handed out, and the frames free at the start are now free or held. */
    method PerformAll(ops: seq<FrameOp>) returns (held: set<nat>)
      requires Valid()
      modifies bits, `free, `used
      ensures Valid() && held !! free && held + free == old(free)
    {
      hide Rep;
      held := {};
      for k := 0 to |ops|
        invariant Valid() && held !! free && held <= usable && held + free == old(free)
      {
        if FreesHeld(ops[k], held) {
          var handed;
          handed, held := Perform(ops[k], held);
        }
      }
    }

    /** The words are determined by the free set. */
    lemma WordsShowFree()
      requires Rep()
      ensures Shows(bits[..], free)
    {
    }
  }

  /** Bit `b` of word `i` is set exactly for the free frames. */
  ghost predicate Shows(words: seq<Word>, free: set<nat>) {
    |words| == WORDS && forall i, b :: 0 <= i < WORDS && 0 <= b < 64 ==> (words[i][b] <==> i * 64 + b in free)
  }

  lemma SameFreeSameWords(a: seq<Word>, b: seq<Word>, free: set<nat>)
    requires Shows(a, free) && Shows(b, free)
    ensures a == b
  {
    forall i | 0 <= i < WORDS ensures a[i] == b[i] {
      assert forall k :: 0 <= k < 64 ==> a[i][k] == b[i][k];
    }
  }
}
