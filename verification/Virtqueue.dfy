/** The receive queue of virtio-net as a split virtqueue (VIRTIO 1.1, section 2.6): driver
    and device share an available ring and a used ring with 16-bit indices that wrap. Each
    ring write and each index publication is a step of its own, and the device may complete
    the buffers it was offered in any order and announce several completions at once. */
module Virtqueue {

  import opened Options
  import VringLayout

  const U16: nat := 0x1_0000
  const RX_SLOTS: nat := 64

  /** Queue sizes `VringLayout::for_qsize` accepts. */
  predicate QueueSize(q: nat) {
    q in VringLayout.SIZES
  }

  function Slots(q: nat): nat {
    if q < RX_SLOTS then q else RX_SLOTS
  }

  /** `index & (qsize - 1)` */
  function Slot(index: nat, q: nat): nat
    requires q > 0
  {
    index % q
  }

  datatype DriverPc =
    | Posting            // about to write the next fresh descriptor into the available ring
    | Ready              // all posted, nothing in hand
    | Seen               // a used index different from its own was read
    | Popped(id: nat)    // a completion was taken off the used ring
    | Written(id: nat)   // a descriptor is in the available ring but not yet published

  /** Ring memory, the two private states (`written` are the completions in the used ring the
      device has not announced yet), and a record of what was offered, taken,
      completed and received that no step reads. */
  datatype State = State(
    q: nat,
    availRing: seq<nat>, availIdx: nat,
    usedRing: seq<nat>, usedIdx: nat,
    driver: DriverPc, driverAvail: nat, driverUsed: nat, posted: nat,
    deviceAvail: nat, inflight: set<nat>, written: seq<nat>,
    offered: seq<nat>, taken: nat, completions: seq<nat>, received: seq<nat>)

  datatype Step =
    | WriteFresh         // post_rx_buffers: ring entry
    | Publish            // post_rx_buffers and repost_rx_descriptor: index
    | See                // poll_queue_used: index read, something new
    | Pop                // poll_queue_used: element read
    | WriteBack          // repost_rx_descriptor: ring entry
    | Take               // device: next available entry
    | Complete(id: nat)  // device: used ring entry
    | Announce           // device: used index, for all it has written

  /** The used ring slot the device fills next. */
  function NextUsed(s: State): nat
    requires s.q > 0
  {
    Slot((s.usedIdx + |s.written|) % U16, s.q)
  }

  predicate Enabled(s: State, step: Step)
    requires s.q > 0
  {
    match step
    case WriteFresh => s.driver == Posting && s.posted < Slots(s.q) && Slot(s.driverAvail, s.q) < |s.availRing|
    case Publish => s.driver.Written?
    case See => s.driver == Ready && s.usedIdx != s.driverUsed
    case Pop => s.driver == Seen && Slot(s.driverUsed, s.q) < |s.usedRing|
    case WriteBack => s.driver.Popped? && Slot(s.driverAvail, s.q) < |s.availRing|
    case Take => s.deviceAvail != s.availIdx && Slot(s.deviceAvail, s.q) < |s.availRing|
    case Complete(id) => id in s.inflight && NextUsed(s) < |s.usedRing|
    case Announce => s.written != []
  }

  function After(s: State, step: Step): (s': State)
    requires s.q > 0 && Enabled(s, step)
    ensures s'.q == s.q
  {
    match step
    case WriteFresh =>
      s.(availRing := s.availRing[Slot(s.driverAvail, s.q) := s.posted],
         driver := Written(s.posted), posted := s.posted + 1)
    case Publish =>
      var next := (s.driverAvail + 1) % U16;
      s.(driverAvail := next, availIdx := next, offered := s.offered + [s.driver.id],
         driver := if s.posted < Slots(s.q) then Posting else Ready)
    case See => s.(driver := Seen)
    case Pop =>
      var id := s.usedRing[Slot(s.driverUsed, s.q)];
      s.(driver := Popped(id), driverUsed := (s.driverUsed + 1) % U16, received := s.received + [id])
    case WriteBack =>
      s.(availRing := s.availRing[Slot(s.driverAvail, s.q) := s.driver.id], driver := Written(s.driver.id))
    case Take =>
      var id := s.availRing[Slot(s.deviceAvail, s.q)];
      s.(deviceAvail := (s.deviceAvail + 1) % U16, inflight := s.inflight + {id}, taken := s.taken + 1)
    case Complete(id) =>
      s.(usedRing := s.usedRing[NextUsed(s) := id], inflight := s.inflight - {id}, written := s.written + [id])
    case Announce =>
      s.(usedIdx := (s.usedIdx + |s.written|) % U16, completions := s.completions + s.written, written := [])
  }

  // ── The invariant ──────────────────────────────────────────────────────────

  /** The descriptors waiting in the available ring, oldest first. */
  function Offered(s: State): seq<nat>
    requires s.taken <= |s.offered|
  {
    s.offered[s.taken..]
  }

  /** The descriptors waiting in the used ring, oldest first. */
  function Completed(s: State): seq<nat>
    requires |s.received| <= |s.completions|
  {
    s.completions[|s.received|..]
  }

  /** Everything the device ever put into the used ring, announced or not. */
  function Used(s: State): seq<nat> {
    s.completions + s.written
  }

  /** The descriptor in the driver's hands, if any. */
  function Held(s: State): set<nat> {
    match s.driver
    case Popped(id) => {id}
    case Written(id) => {id}
    case _ => {}
  }

  function Posted(n: nat): (ids: set<nat>)
    ensures forall i: nat :: i in ids <==> i < n
    ensures |ids| == n
  {
    if n == 0 then {} else Posted(n - 1) + {n - 1}
  }

  predicate Shape(s: State) {
    && QueueSize(s.q) && |s.availRing| == s.q && |s.usedRing| == s.q
    && s.posted <= Slots(s.q)
    && s.taken <= |s.offered| && |s.received| <= |s.completions|
    && s.received == s.completions[..|s.received|]
    && (s.driver == Posting <==> s.posted < Slots(s.q) && !s.driver.Written?)
    && (s.driver == Seen ==> |s.received| < |s.completions|)
  }

  /** The 16-bit indices are the true counts modulo 2^16. */
  predicate Indices(s: State) {
    && s.driverAvail == |s.offered| % 0x1_0000 && s.availIdx == |s.offered| % 0x1_0000
    && s.deviceAvail == s.taken % 0x1_0000
    && s.usedIdx == |s.completions| % 0x1_0000 && s.driverUsed == |s.received| % 0x1_0000
  }

  /** Every unread ring entry still holds what was written for it. */
  ghost predicate Rings(s: State)
    requires Shape(s)
  {
    && (forall k :: s.taken <= k < |s.offered| ==> s.availRing[k % s.q] == s.offered[k])
    && (forall k :: |s.received| <= k < |Used(s)| ==> s.usedRing[k % s.q] == Used(s)[k])
    && (s.driver.Written? ==> s.availRing[|s.offered| % s.q] == s.driver.id)
  }

  /** Every posted descriptor is in exactly one place. */
  ghost predicate OneOwner(s: State)
    requires Shape(s)
  {
    multiset(Offered(s)) + multiset(s.inflight) + multiset(s.written) + multiset(Completed(s)) + multiset(Held(s))
    == multiset(Posted(s.posted))
  }

  ghost predicate Inv(s: State) {
    Shape(s) && Indices(s) && Rings(s) && OneOwner(s)
  }

  predicate Initial(s: State) {
    && QueueSize(s.q) && |s.availRing| == s.q && |s.usedRing| == s.q
    && s.availIdx == s.usedIdx == s.driverAvail == s.driverUsed == s.deviceAvail == 0
    && s.driver == Posting && s.posted == 0 && s.inflight == {} && s.written == []
    && s.offered == [] && s.taken == 0 && s.completions == [] && s.received == []
  }

  lemma InitialInv(s: State)
    requires Initial(s)
    ensures Inv(s)
  {
  }

  /** Neither ring can fill past the number of descriptors posted, which it has room for. */
  lemma RingsHaveRoom(s: State)
    requires Shape(s) && OneOwner(s)
    ensures |s.offered| - s.taken + |Held(s)| <= s.posted <= s.q
    ensures |Used(s)| - |s.received| + |s.inflight| <= s.posted
    ensures |s.offered| - s.taken < U16 && |s.completions| - |s.received| < U16
  {
    var sum := multiset(Offered(s)) + multiset(s.inflight) + multiset(s.written) + multiset(Completed(s)) + multiset(Held(s));
    assert |sum| == |Offered(s)| + |s.inflight| + |s.written| + |Completed(s)| + |Held(s)|;
    assert |multiset(Posted(s.posted))| == s.posted;
  }

  // ── Slots and wrapped indices ──────────────────────────────────────────────

  lemma {:induction false} AtLeast(d: nat, q: nat)
    requires d >= 1
    ensures d * q >= q
  {
    if d > 1 {
      AtLeast(d - 1, q);
      assert d * q == (d - 1) * q + q;
    }
  }

  lemma UniqueDivision(q: nat, a: int, r: nat, b: int, t: nat)
    requires r < q && t < q && a * q + r == b * q + t
    ensures a == b && r == t
  {
    assert (a - b) * q == a * q - b * q && (b - a) * q == b * q - a * q;
    if a > b {
      AtLeast(a - b, q);
    } else if b > a {
      AtLeast(b - a, q);
    }
  }

  lemma ModSum(k: nat, q: nat, r: nat)
    requires r < q
    ensures (k * q + r) % q == r
  {
    var x := k * q + r;
    UniqueDivision(q, k, r, x / q, x % q);
  }

  /** A count below the queue size apart means another ring slot. */
  lemma OtherSlot(q: nat, k: nat, n: nat)
    requires q > 0 && n - q < k < n
    ensures k % q != n % q
  {
    if k % q == n % q {
      var a, b := k / q, n / q;
      assert k == a * q + k % q && n == b * q + n % q;
      assert (b - a) * q == n - k;
      if b > a { AtLeast(b - a, q); }
    }
  }

  lemma Quotient(q: nat)
    requires QueueSize(q)
    ensures q > 0 && U16 / q * q == U16
  {
  }

  /** A wrapped index picks the slot of the true count. */
  lemma WrappedSlot(q: nat, n: nat)
    requires QueueSize(q)
    ensures Slot(n % U16, q) == n % q
  {
    hide QueueSize;
    Quotient(q);
    WrapAlgebra(q, U16 / q, n / U16, n % U16);
  }

  lemma WrapAlgebra(q: nat, m: nat, a: nat, r: nat)
    requires q > 0 && m * q == U16
    ensures (a * U16 + r) % q == r % q
  {
    var b, t := r / q, r % q;
    assert a * U16 == (a * m) * q;
    assert a * U16 + r == (a * m + b) * q + t;
    ModSum(a * m + b, q, t);
  }

  /** Counts less than 2^16 apart are equal exactly when their wrapped indices are. */
  lemma WrappedEqual(a: nat, b: nat)
    requires a <= b < a + U16
    ensures a % U16 == b % U16 <==> a == b
  {
  }

  // ── Steps ──────────────────────────────────────────────────────────────────

  /** The slot a driver write goes to holds no unread entry. */
  lemma DriverSlotFree(s: State, k: nat)
    requires Inv(s) && s.taken <= k < |s.offered| && !s.driver.Written?
    requires s.driver.Popped? || s.posted < Slots(s.q)
    ensures k % s.q != Slot(s.driverAvail, s.q)
  {
    hide Rings, QueueSize, Posted;
    RingsHaveRoom(s);
    WrappedSlot(s.q, |s.offered|);
    assert |Held(s)| == (if s.driver.Popped? then 1 else 0);
    OtherSlot(s.q, k, |s.offered|);
  }

  /** The slot a device write goes to holds no unread entry. */
  lemma DeviceSlotFree(s: State, k: nat)
    requires Inv(s) && |s.received| <= k < |Used(s)| && s.inflight != {}
    ensures s.q > 0 && k % s.q != NextUsed(s)
  {
    hide Rings, QueueSize, Posted;
    RingsHaveRoom(s);
    NextUsedIs(s);
    assert |s.inflight| >= 1;
    OtherSlot(s.q, k, |Used(s)|);
  }

  lemma NextUsedIs(s: State)
    requires Shape(s) && Indices(s)
    ensures s.q > 0 && NextUsed(s) == |Used(s)| % s.q && (s.usedIdx + |s.written|) % U16 == |Used(s)| % U16
  {
    hide QueueSize;
    Quotient(s.q);
    NextIndex(|s.completions|, |s.written|);
    WrappedSlot(s.q, |Used(s)|);
  }

  lemma NextIndex(n: nat, more: nat)
    ensures (n % U16 + more) % U16 == (n + more) % U16
  {
  }

  lemma MoreSlots(s: State)
    requires Shape(s) && s.driver == Posting
    ensures s.posted < Slots(s.q) && multiset(Posted(s.posted + 1)) == multiset(Posted(s.posted)) + multiset{s.posted}
  {
  }

  lemma WriteFreshKeeps(s: State)
    requires Inv(s) && Enabled(s, WriteFresh)
    ensures Inv(After(s, WriteFresh))
  {
    hide QueueSize, Slots, Posted;
    var s' := After(s, WriteFresh);
    WrappedSlot(s.q, |s.offered|);
    MoreSlots(s);
    forall k | s.taken <= k < |s.offered| ensures s'.availRing[k % s.q] == s.offered[k] {
      DriverSlotFree(s, k);
    }
  }

  lemma PublishKeeps(s: State)
    requires Inv(s) && Enabled(s, Publish)
    ensures Inv(After(s, Publish))
  {
    hide QueueSize, Slots, Posted, Rings, OneOwner;
    Quotient(s.q);
    var s' := After(s, Publish);
    NextIndex(|s.offered|, 1);
    assert Shape(s');
    PublishRings(s, s');
    PublishOwner(s, s');
  }

  lemma PublishRings(s: State, s': State)
    requires Shape(s) && Shape(s') && Rings(s) && s.driver.Written?
    requires s' == s.(driverAvail := s'.driverAvail, availIdx := s'.availIdx, driver := s'.driver,
                      offered := s.offered + [s.driver.id]) && !s'.driver.Written?
    ensures Rings(s')
  {
    hide QueueSize, Slots, Posted, OneOwner, Shape;
  }

  lemma PublishOwner(s: State, s': State)
    requires Shape(s) && Shape(s') && OneOwner(s) && s.driver.Written?
    requires s' == s.(driverAvail := s'.driverAvail, availIdx := s'.availIdx, driver := s'.driver,
                      offered := s.offered + [s.driver.id]) && Held(s') == {}
    ensures OneOwner(s')
  {
    hide QueueSize, Slots, Posted, Rings;
    assert Offered(s') == Offered(s) + [s.driver.id];
  }

  lemma SeeKeeps(s: State)
    requires Inv(s) && Enabled(s, See)
    ensures Inv(After(s, See))
  {
    hide QueueSize, Slots, Posted;
    RingsHaveRoom(s);
  }

  lemma PopKeeps(s: State)
    requires Inv(s) && Enabled(s, Pop)
    ensures Inv(After(s, Pop))
  {
    hide QueueSize, Slots, Posted;
    var s' := After(s, Pop);
    WrappedSlot(s.q, |s.received|);
    NextIndex(|s.received|, 1);
    var id := s.completions[|s.received|];
    assert s'.received == s.completions[..|s.received| + 1];
    assert Completed(s) == [id] + Completed(s');
  }

  lemma WriteBackKeeps(s: State)
    requires Inv(s) && Enabled(s, WriteBack)
    ensures Inv(After(s, WriteBack))
  {
    hide QueueSize, Slots, Posted;
    var s' := After(s, WriteBack);
    WrappedSlot(s.q, |s.offered|);
    forall k | s.taken <= k < |s.offered| ensures s'.availRing[k % s.q] == s.offered[k] {
      DriverSlotFree(s, k);
    }
  }

  /** A descriptor waiting in the available ring is not with the device already. */
  lemma NotInflight(s: State, id: nat)
    requires Shape(s) && OneOwner(s) && id in Offered(s)
    ensures id !in s.inflight
  {
    assert multiset(Posted(s.posted))[id] <= 1;
    assert multiset(Offered(s))[id] >= 1;
  }

  lemma TakeKeeps(s: State)
    requires Inv(s) && Enabled(s, Take)
    ensures Inv(After(s, Take))
  {
    hide QueueSize, Slots, Posted;
    var s' := After(s, Take);
    WrappedSlot(s.q, s.taken);
    NextIndex(s.taken, 1);
    assert s.taken < |s.offered|;
    var id := s.offered[s.taken];
    assert Offered(s) == [id] + Offered(s');
    NotInflight(s, id);
  }

  lemma CompleteKeeps(s: State, id: nat)
    requires Inv(s) && Enabled(s, Complete(id))
    ensures Inv(After(s, Complete(id)))
  {
    hide QueueSize, Slots, Posted, Rings, OneOwner;
    var s' := After(s, Complete(id));
    NextUsedIs(s);
    assert Shape(s');
    assert Used(s') == Used(s) + [id];
    CompleteRings(s, s', id);
    CompleteOwner(s, s', id);
  }

  lemma CompleteRings(s: State, s': State, id: nat)
    requires Inv(s) && Shape(s') && id in s.inflight && NextUsed(s) == |Used(s)| % s.q
    requires Used(s') == Used(s) + [id]
    requires s' == s.(usedRing := s.usedRing[NextUsed(s) := id], inflight := s.inflight - {id}, written := s'.written)
    ensures Rings(s')
  {
    hide QueueSize, Slots, Posted, OneOwner, NextUsed;
    Quotient(s.q);
    forall k | |s.received| <= k < |Used(s')| ensures s'.usedRing[k % s.q] == Used(s')[k] {
      if k < |Used(s)| {
        DeviceSlotFree(s, k);
      }
    }
  }

  lemma CompleteOwner(s: State, s': State, id: nat)
    requires Shape(s) && Shape(s') && OneOwner(s) && id in s.inflight
    requires s' == s.(usedRing := s'.usedRing, inflight := s.inflight - {id}, written := s.written + [id])
    ensures OneOwner(s')
  {
    hide QueueSize, Slots, Posted, Rings;
  }

  lemma AnnounceKeeps(s: State)
    requires Inv(s) && Enabled(s, Announce)
    ensures Inv(After(s, Announce))
  {
    hide QueueSize, Slots, Posted, OneOwner;
    NextUsedIs(s);
    var s' := After(s, Announce);
    assert Used(s') == Used(s);
    assert s'.received == s'.completions[..|s.received|];
    assert Shape(s');
    AnnounceOwner(s, s');
  }

  lemma AnnounceOwner(s: State, s': State)
    requires Shape(s) && Shape(s') && OneOwner(s)
    requires s' == s.(usedIdx := s'.usedIdx, completions := s.completions + s.written, written := [])
    ensures OneOwner(s')
  {
    hide QueueSize, Slots, Posted, Rings;
    assert Completed(s') == Completed(s) + s.written;
  }

  lemma StepKeeps(s: State, step: Step)
    requires Inv(s) && Enabled(s, step)
    ensures Inv(After(s, step))
  {
    hide Inv, After;
    match step
    case WriteFresh => WriteFreshKeeps(s);
    case Publish => PublishKeeps(s);
    case See => SeeKeeps(s);
    case Pop => PopKeeps(s);
    case WriteBack => WriteBackKeeps(s);
    case Take => TakeKeeps(s);
    case Complete(id) => CompleteKeeps(s, id);
    case Announce => AnnounceKeeps(s);
  }

  // ── Runs ───────────────────────────────────────────────────────────────────

  ghost predicate IsRun(states: seq<State>, steps: seq<Step>) {
    && |states| == |steps| + 1 && Initial(states[0])
    && forall k :: 0 <= k < |steps| ==>
         states[k].q > 0 && Enabled(states[k], steps[k]) && states[k + 1] == After(states[k], steps[k])
  }

  lemma {:induction false} RunInv(states: seq<State>, steps: seq<Step>, k: nat)
    requires IsRun(states, steps) && k < |states|
    ensures Inv(states[k])
  {
    hide Inv, Enabled, After;
    if k == 0 {
      InitialInv(states[0]);
    } else {
      RunInv(states, steps, k - 1);
      StepKeeps(states[k - 1], steps[k - 1]);
    }
  }

  /** How often a descriptor appears among the places it can be. */
  ghost function Places(s: State, id: nat): nat
    requires s.taken <= |s.offered| && |s.received| <= |s.completions|
  {
    multiset(Offered(s))[id] + (if id in s.inflight then 1 else 0) + multiset(s.written)[id]
    + multiset(Completed(s))[id] + (if id in Held(s) then 1 else 0)
  }

  /** In every state of every run, over any number of index wraps, each posted descriptor is
      in exactly one place, and no other descriptor is anywhere. */
  lemma ExactlyOnePlace(states: seq<State>, steps: seq<Step>, k: nat, id: nat)
    requires IsRun(states, steps) && k < |states|
    ensures var s := states[k];
            s.taken <= |s.offered| && |s.received| <= |s.completions|
            && Places(s, id) == if id < s.posted then 1 else 0
  {
    RunInv(states, steps, k);
    var s := states[k];
    assert multiset(Posted(s.posted))[id] == if id < s.posted then 1 else 0;
  }

  /** No ring write, by driver or device, lands on an entry the other side has not read. */
  lemma NoUnreadOverwritten(states: seq<State>, steps: seq<Step>, k: nat, j: nat)
    requires IsRun(states, steps) && k < |steps|
    ensures var s := states[k];
            && (steps[k] in {WriteFresh, WriteBack} && s.taken <= j < |s.offered| ==>
                  j % s.q != Slot(s.driverAvail, s.q))
            && (steps[k].Complete? && |s.received| <= j < |Used(s)| ==> j % s.q != NextUsed(s))
  {
    hide Inv;
    RunInv(states, steps, k);
    var s := states[k];
    if steps[k] in {WriteFresh, WriteBack} && s.taken <= j < |s.offered| {
      DriverSlotFree(s, j);
    }
    if steps[k].Complete? && |s.received| <= j < |Used(s)| {
      DeviceSlotFree(s, j);
    }
  }

  /** No completion is lost, repeated or reordered: what the driver received is a prefix of
      what the device completed, and a poll finds something exactly when the rest is not
      empty. */
  lemma CompletionsDelivered(states: seq<State>, steps: seq<Step>, k: nat)
    requires IsRun(states, steps) && k < |states|
    ensures var s := states[k];
            && s.received <= s.completions
            && (s.usedIdx != s.driverUsed <==> |s.received| < |s.completions|)
            && (s.deviceAvail != s.availIdx <==> s.taken < |s.offered|)
  {
    RunInv(states, steps, k);
    var s := states[k];
    RingsHaveRoom(s);
    WrappedEqual(|s.received|, |s.completions|);
    WrappedEqual(s.taken, |s.offered|);
  }

  // ── What the device does between two reads ─────────────────────────────────

  predicate IsDevice(step: Step) {
    step.Take? || step.Complete? || step.Announce?
  }

  /** Those of the steps that are the device's and possible, one after the other. */
  function DeviceAfter(s: State, steps: seq<Step>): (r: State)
    requires s.q > 0
    ensures r.q == s.q
    decreases |steps|
  {
    if steps == [] then s
    else if IsDevice(steps[0]) && Enabled(s, steps[0]) then DeviceAfter(After(s, steps[0]), steps[1..])
    else DeviceAfter(s, steps[1..])
  }

  /** The driver keeps its place, and what was completed stays completed. */
  lemma {:induction false} DeviceLeaves(s: State, steps: seq<Step>)
    requires Inv(s) && s.q > 0
    ensures var s' := DeviceAfter(s, steps);
            && Inv(s') && s'.q == s.q && s'.driver == s.driver && s'.posted == s.posted && s'.offered == s.offered
            && s'.driverUsed == s.driverUsed && s'.received == s.received && s.completions <= s'.completions
    decreases |steps|
  {
    hide Inv, NextUsed;
    if steps != [] {
      if IsDevice(steps[0]) && Enabled(s, steps[0]) {
        StepKeeps(s, steps[0]);
        DeviceLeaves(After(s, steps[0]), steps[1..]);
      } else {
        DeviceLeaves(s, steps[1..]);
      }
    }
  }

  /** After `n` looks at the used index that found nothing. */
  function Waited(s: State, acts: nat -> seq<Step>, n: nat): (r: State)
    requires s.q > 0
    ensures r.q == s.q
  {
    if n == 0 then s else DeviceAfter(Waited(s, acts, n - 1), acts(2 * n - 2))
  }

  /** The look that found something, what the device did next, and the entry taken. */
  ghost predicate TookEntry(seen: State, steps: seq<Step>, s': State)
    requires seen.q > 0
  {
    && Enabled(seen, See)
    && var mid := DeviceAfter(After(seen, See), steps);
    Enabled(mid, Pop) && s' == After(mid, Pop)
  }

  lemma WaitedIs(s: State, acts: nat -> seq<Step>, n: nat)
    requires s.q > 0
    ensures Waited(s, acts, n) == if n == 0 then s else DeviceAfter(Waited(s, acts, n - 1), acts(2 * n - 2))
  {
    hide DeviceAfter;
  }

  // ── The driver's code ──────────────────────────────────────────────────────

  /** The receive queue in memory. `st` is the protocol state it is in; every method shows the
      protocol steps its reads and writes are. */
  class RxQueue {
    const q: nat
    const availRing: array<nat>
    const usedRing: array<nat>
    var availIdx: nat   // in ring memory
    var usedIdx: nat    // in ring memory, written by the device
    var avail: nat      // the driver's own copies
    var used: nat
    var deviceAvail: nat        // the device's own state
    var inflight: set<nat>
    var written: seq<nat>
    ghost var st: State

    ghost predicate Valid()
      reads this, availRing, usedRing
    {
      && Inv(st) && st.q == q && availRing != usedRing
      && st.availRing == availRing[..] && st.usedRing == usedRing[..]
      && st.availIdx == availIdx && st.usedIdx == usedIdx && st.driverAvail == avail && st.driverUsed == used
      && st.deviceAvail == deviceAvail && st.inflight == inflight && st.written == written
    }

    constructor (size: nat)
      requires QueueSize(size)
      ensures Valid() && q == size && Initial(st) && fresh(availRing) && fresh(usedRing)
    {
      q := size;
      availRing := new nat[size](_ => 0);
      usedRing := new nat[size](_ => 0);
      availIdx, usedIdx, avail, used := 0, 0, 0, 0;
      deviceAvail, inflight, written := 0, {}, [];
      new;
      st := Zeroed(size);
      ZeroedInv(size);
      assert availRing[..] == usedRing[..] == st.availRing;
    }

    /** Ring entry, then index: a fresh buffer or one taken off the used ring. */
    method Offer(id: nat)
      requires Valid() && (st.driver == Posting || st.driver.Popped?)
      requires id == (if st.driver == Posting then st.posted else st.driver.id)
      modifies this`availIdx, this`avail, this`st, availRing
      ensures Valid() && Offers(old(st), st)
    {
      hide Inv, Slots;
      RingShape(st);
      var slot := Slot(avail, q);
      ghost var step := if st.driver == Posting then WriteFresh else WriteBack;
      StepKeeps(st, step);
      availRing[slot] := id;
      st := After(st, step);
      StepKeeps(st, Publish);
      avail := (avail + 1) % U16;
      availIdx := avail;
      st := After(st, Publish);
    }

    /** Offers every receive buffer once, in order, and ends ready to poll. */
    method PostRxBuffers()
      requires Valid() && Initial(st)
      modifies this`availIdx, this`avail, this`st, availRing
      ensures Valid() && st.driver == Ready
      ensures |st.offered| == st.posted == (if q < 64 then q else 64)
      ensures forall i :: 0 <= i < |st.offered| ==> st.offered[i] == i
    {
      hide Inv;
      var slots := Slots(q);
      SlotsPositive(st);
      var i := 0;
      while i < slots
        invariant 0 <= i <= slots && Valid() && st.posted == i && st.offered == Ids(i)
        invariant st.driver == if i < slots then Posting else Ready
      {
        Offer(i);
        i := i + 1;
      }
      IdsInOrder(slots);
    }

    /** One step of the device, if it is possible. */
    method DeviceStep(step: Step)
      requires Valid() && IsDevice(step)
      modifies this`usedIdx, this`deviceAvail, this`inflight, this`written, this`st, usedRing
      ensures Valid() && old(st).q > 0
      ensures st == if Enabled(old(st), step) then After(old(st), step) else old(st)
    {
      hide Inv, Slots;
      RingShape(st);
      if Enabled(st, step) {
        StepKeeps(st, step);
      }
      match step
      case Take =>
        if deviceAvail != availIdx {
          st := After(st, step);
          inflight := inflight + {availRing[Slot(deviceAvail, q)]};
          deviceAvail := (deviceAvail + 1) % U16;
        }
      case Complete(id) =>
        if id in inflight {
          st := After(st, step);
          usedRing[Slot((usedIdx + |written|) % U16, q)] := id;
          inflight, written := inflight - {id}, written + [id];
        }
      case Announce =>
        if written != [] {
          st := After(st, step);
          usedIdx, written := (usedIdx + |written|) % U16, [];
        }
    }

    method DeviceActs(steps: seq<Step>)
      requires Valid()
      modifies this`usedIdx, this`deviceAvail, this`inflight, this`written, this`st, usedRing
      ensures Valid() && old(st).q > 0 && st == DeviceAfter(old(st), steps)
    {
      hide Inv, Enabled, After;
      RingShape(st);
      var k := 0;
      while k < |steps|
        invariant 0 <= k <= |steps| && Valid()
        invariant st.q > 0 && DeviceAfter(old(st), steps) == DeviceAfter(st, steps[k..])
      {
        assert steps[k..][1..] == steps[k + 1..];
        if IsDevice(steps[k]) {
          DeviceStep(steps[k]);
        }
        k := k + 1;
      }
    }

    /** One completion, or none when the device has announced nothing new. Before each of the
        driver's reads the device does as it likes: `acts(2k)` before look `k` at the index, and
        `acts(2k + 1)` between that look and reading the entry. */
    method PollQueueUsed(timeout: nat, acts: nat -> seq<Step>) returns (r: Option<nat>, looks: nat)
      requires Valid() && st.driver == Ready
      modifies this`usedIdx, this`deviceAvail, this`inflight, this`written, this`used, this`st, usedRing
      ensures Valid() && old(st).q > 0
      ensures var seen := Waited(old(st), acts, looks);
              match r
              case None => looks == timeout && st == seen && (looks == 0 || |seen.received| == |seen.completions|)
              case Some(id) =>
                1 <= looks <= timeout && TookEntry(seen, acts(2 * looks - 1), st)
      ensures r.None? ==> st.driver == Ready && st.received == old(st).received
      ensures r.Some? ==> && |old(st).received| < |st.completions| && r.value == st.completions[|old(st).received|]
                          && st.received == old(st).received + [r.value] && st.driver == Popped(r.value)
      ensures old(st).completions <= st.completions
    {
      hide Inv, Slots, DeviceAfter, After, Enabled, Waited, TookEntry;
      RingShape(st);
      looks := 0;
      WaitedIs(st, acts, 0);
      while looks < timeout
        invariant 0 <= looks <= timeout && Valid() && st == Waited(old(st), acts, looks)
        invariant st.driver == Ready && st.received == old(st).received && old(st).completions <= st.completions
        invariant looks > 0 ==> |st.received| == |st.completions|
      {
        DeviceLeaves(st, acts(2 * looks));
        DeviceActs(acts(2 * looks));
        looks := looks + 1;
        WaitedIs(old(st), acts, looks);
        PollSees(st);
        if usedIdx != used {
          var id := TakeEntry(acts(2 * looks - 1));
          return Some(id), looks;
        }
      }
      return None, looks;
    }

    /** From a look that found something to the entry it is. */
    method TakeEntry(steps: seq<Step>) returns (id: nat)
      requires Valid() && st.driver == Ready && usedIdx != used
      modifies this`usedIdx, this`deviceAvail, this`inflight, this`written, this`used, this`st, usedRing
      ensures Valid() && old(st).q > 0 && TookEntry(old(st), steps, st)
      ensures |old(st).received| < |st.completions| && id == st.completions[|old(st).received|]
      ensures st.received == old(st).received + [id] && st.driver == Popped(id) && old(st).completions <= st.completions
    {
      hide Inv, Slots, DeviceAfter;
      RingShape(st);
      StepKeeps(st, See);
      st := After(st, See);
      DeviceLeaves(st, steps);
      DeviceActs(steps);
      RingShape(st);
      PopReads(st);
      StepKeeps(st, Pop);
      id := usedRing[Slot(used, q)];
      used := (used + 1) % U16;
      st := After(st, Pop);
    }
  }

  /** Rings of zeros, nothing offered. */
  ghost function Zeroed(q: nat): State {
    var ring := seq(q, _ => 0);
    State(q, ring, 0, ring, 0, Posting, 0, 0, 0, 0, {}, [], [], 0, [], [])
  }

  lemma ZeroedInv(q: nat)
    requires QueueSize(q)
    ensures Initial(Zeroed(q)) && Inv(Zeroed(q))
  {
    InitialInv(Zeroed(q));
  }

  lemma {:induction false} IdsInOrder(n: nat)
    ensures |Ids(n)| == n && forall i :: 0 <= i < n ==> Ids(n)[i] == i
  {
    if n > 0 { IdsInOrder(n - 1); }
  }

  function Ids(n: nat): seq<nat> {
    if n == 0 then [] else Ids(n - 1) + [n - 1]
  }

  ghost predicate Offers(s: State, s': State)
    requires s.driver == Posting || s.driver.Popped?
  {
    var step := if s.driver == Posting then WriteFresh else WriteBack;
    s.q > 0 && Enabled(s, step) && After(s, step).q > 0 && Enabled(After(s, step), Publish)
    && s' == After(After(s, step), Publish)
  }

  lemma RingShape(s: State)
    requires Inv(s)
    ensures s.q > 0 && |s.availRing| == |s.usedRing| == s.q
    ensures s.driver == Posting ==> s.posted < Slots(s.q)
  {
  }

  lemma SlotsPositive(s: State)
    requires Initial(s)
    ensures Slots(s.q) > 0
  {
  }

  lemma PollSees(s: State)
    requires Inv(s)
    ensures |s.received| <= |s.completions|
    ensures s.usedIdx != s.driverUsed <==> |s.received| < |s.completions|
  {
    RingsHaveRoom(s);
    WrappedEqual(|s.received|, |s.completions|);
  }

  lemma PopReads(s: State)
    requires Inv(s) && s.driver == Seen
    ensures s.q > 0 && Slot(s.driverUsed, s.q) < |s.usedRing| && |s.received| < |s.completions|
    ensures s.usedRing[Slot(s.driverUsed, s.q)] == s.completions[|s.received|]
  {
    hide QueueSize;
    Quotient(s.q);
    WrappedSlot(s.q, |s.received|);
  }
}
