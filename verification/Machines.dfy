/** The machine the page-table code runs on: physical memory and the frame bitmap. */
module Machines {

  import opened Options
  import opened FrameAllocator
  import opened PhysMemory

  lemma LeastIs(s: set<nat>, f: nat)
    requires f in s && forall g: nat :: g in s ==> f <= g
    ensures Least(s) == f
  {
  }

  class Machine {
    const frames: FrameBitmap
    var mem: Mem

    constructor (frames: FrameBitmap, mem: Mem)
      ensures this.frames == frames && this.mem == mem
    {
      this.frames := frames;
      this.mem := mem;
    }

    ghost predicate Valid()
      reads this, frames, frames.bits
    {
      frames.Valid()
    }

    ghost function Now(): State
      requires Valid()
      reads this, frames, frames.bits
    {
      State(mem, frames.free)
    }

    /** A frame taken from the bitmap and zeroed. */
    method AllocZeroed() returns (r: Option<nat>)
      requires Valid()
      modifies this, frames, frames.bits
      ensures Valid() && frames.usable == old(frames.usable)
      ensures old(frames.free) == {} ==> r.None? && Now() == old(Now())
      ensures old(frames.free) != {} ==> r == Some(Least(old(frames.free))) && Now() == Taken(old(Now()))
    {
      var phys := frames.Alloc();
      if phys.None? { return None; }
      var f := phys.value / FRAME_SIZE;
      LeastIs(old(frames.free), f);
      mem := Clear(mem, f);
      return Some(f);
    }
  }
}
