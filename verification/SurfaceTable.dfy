/** The compositor's surface table: a fixed set of slots, each with an owner, a front and a
    back buffer, a presented flag and a flip pending from a submit. Process groups act on
    their own surfaces; the kernel acts on all. */
module SurfaceTable {

  import opened Options
  import opened Framebuffer
  import PixelPath

  const MAX_SURFACES: nat := 32
  const MAX_PER_GROUP: nat := 8
  const MAX_PIXELS: nat := 1920 * 1080 * 2

  type Pixels = seq<bv32>
  type Slice = PixelPath.Slice
  type Usize = PixelPath.Usize

  datatype Surface = Surface(id: nat, x: I32, y: I32, width: nat, height: nat, z: I32, inUse: bool)

  datatype Slot = Slot(surface: Surface, owner: nat, front: Option<Pixels>, back: Option<Pixels>,
                       presented: bool, pending: bool)

  function NoSurface(): Surface {
    Surface(0, 0, 0, 0, 0, 0, false)
  }

  function EmptySlot(): Slot {
    Slot(NoSurface(), 0, None, None, false, false)
  }

  datatype Table = Table(slots: seq<Slot>, nextId: nat)

  /** `caller_pid` 0 is the kernel; any other pid acts for its group leader. */
  datatype Caller = Kernel | Group(leader: nat)

  /** `Faulted` reads past mapped memory and `Panicked` indexes past a buffer: neither returns. */
  datatype Error =
    InvalidSize | TooLarge | GroupLimit | TableFull | NoSuchSurface | Denied | BadPayload | Faulted | Panicked

  datatype Change =
    | MoveTo(x: I32, y: I32, z: I32)
    | SetZ(z: I32)
    | SetGeometry(x: I32, y: I32, w: nat, h: nat)
    | Flip
    | Present
    | Submit(bytes: Slice, rowBytes: Usize, beyond: seq<bv8>)  // `beyond` lies after the payload
    | Upload(payload: seq<bv8>)
    | Destroy

  datatype Op = Create(caller: Caller, w: nat, h: nat) | Edit(caller: Caller, id: nat, change: Change) | FlipPending

  // ── Looking up ─────────────────────────────────────────────────────────────

  predicate Has(slot: Slot, id: nat) {
    slot.surface.inUse && slot.surface.id == id
  }

  /** The first slot from `k` on with a live surface of that id. */
  function Find(slots: seq<Slot>, id: nat, k: nat): (r: Option<nat>)
    requires k <= |slots|
    ensures r.Some? ==> k <= r.value < |slots| && Has(slots[r.value], id)
    ensures r.None? ==> forall i :: k <= i < |slots| ==> !Has(slots[i], id)
    decreases |slots| - k
  {
    if k == |slots| then None else if Has(slots[k], id) then Some(k) else Find(slots, id, k + 1)
  }

  function FirstFree(slots: seq<Slot>, k: nat): (r: Option<nat>)
    requires k <= |slots|
    ensures r.Some? ==> k <= r.value < |slots| && !slots[r.value].surface.inUse
    ensures r.None? ==> forall i :: k <= i < |slots| ==> slots[i].surface.inUse
    decreases |slots| - k
  {
    if k == |slots| then None else if !slots[k].surface.inUse then Some(k) else FirstFree(slots, k + 1)
  }

  predicate OwnedBy(slot: Slot, leader: nat) {
    slot.surface.inUse && slot.owner == leader
  }

  /** How many live surfaces among the first `k` slots belong to a group. */
  function Owned(slots: seq<Slot>, leader: nat, k: nat): nat
    requires k <= |slots|
  {
    if k == 0 then 0
    else Owned(slots, leader, k - 1) + if OwnedBy(slots[k - 1], leader) then 1 else 0
  }

  predicate Permitted(slot: Slot, caller: Caller) {
    caller.Kernel? || slot.owner == caller.leader
  }

  function Locate(slots: seq<Slot>, caller: Caller, id: nat): Result<nat, Error> {
    match Find(slots, id, 0)
    case None => Err(NoSuchSurface)
    case Some(i) => if Permitted(slots[i], caller) then Ok(i) else Err(Denied)
  }

  // ── The operations as functions of the table ───────────────────────────────

  function Blank(n: nat): Pixels {
    seq(n, _ => 0)
  }

  function SizeError(w: nat, h: nat): Option<Error> {
    if w == 0 || h == 0 then Some(InvalidSize) else if w * h > MAX_PIXELS then Some(TooLarge) else None
  }

  function LeaderOf(caller: Caller): nat {
    match caller
    case Kernel => 0
    case Group(leader) => leader
  }

  function NextId(id: nat): nat {
    var next := (id + 1) % U32;
    if next == 0 then 1 else next
  }

  /** The table and the outcome of a create. */
  function Created(t: Table, caller: Caller, w: nat, h: nat): (Table, Result<nat, Error>) {
    var owner := LeaderOf(caller);
    if SizeError(w, h).Some? then (t, Err(SizeError(w, h).value))
    else if owner != 0 && Owned(t.slots, owner, |t.slots|) >= MAX_PER_GROUP then (t, Err(GroupLimit))
    else
      match FirstFree(t.slots, 0)
      case None => (t, Err(TableFull))
      case Some(i) => (Table(t.slots[i := Fresh(t.slots[i], t.nextId, owner, w, h)], NextId(t.nextId)), Ok(t.nextId))
  }

  /** A create sets no back buffer and no pending flag: it relies on free slots having none. */
  function Fresh(slot: Slot, id: nat, owner: nat, w: nat, h: nat): Slot {
    slot.(surface := Surface(id, 0, 0, w, h, 0, true), owner := owner, front := Some(Blank(w * h)),
          presented := false)
  }

  function FlipSlot(slot: Slot): Slot {
    var pixels := slot.surface.width * slot.surface.height;
    var back := if slot.back.Some? then slot.back
                else if slot.front.Some? then slot.front else Some(Blank(pixels));
    slot.(front := back, back := slot.front, presented := true)
  }

  /** The size check is on a product that wraps and does not look at the width, so a stride shorter
      than a row, or so long that the product wraps, can read what lies after the payload, or
      fault when nothing does. */
  ghost function SubmitSlot(slot: Slot, bytes: Slice, rowBytes: Usize, beyond: seq<bv8>): Result<Slot, Error> {
    var w, h := slot.surface.width, slot.surface.height;
    var rowPx := PixelPath.RowPixels(w, rowBytes);
    if !PixelPath.Accepted(bytes, rowPx, h) then Err(BadPayload)
    else if !PixelPath.Fits(bytes + beyond, w, rowPx, h) then Err(Faulted)
    else Ok(slot.(back := Some(PixelPath.OnePass(bytes + beyond, w, rowPx, h, h)), pending := true))
  }

  function Words(payload: seq<bv8>, n: nat): (r: Pixels)
    requires |payload| == n * 4
    ensures |r| == n
  {
    seq(n, i requires 0 <= i < n => PixelPath.Word(payload, i * 4))
  }

  /** An uploaded pixel holds red, green, blue and alpha from its lowest byte up. */
  lemma UploadedPixel(payload: seq<bv8>, n: nat, i: nat)
    requires |payload| == n * 4 && i < n
    ensures var p := Words(payload, n)[i];
            && p & 0xFF == payload[4 * i] as bv32 && (p >> 8) & 0xFF == payload[4 * i + 1] as bv32
            && (p >> 16) & 0xFF == payload[4 * i + 2] as bv32 && p >> 24 == payload[4 * i + 3] as bv32
  {
    hide PixelPath.Little;
    PixelPath.LittleBytes(payload[4 * i], payload[4 * i + 1], payload[4 * i + 2], payload[4 * i + 3]);
    assert Words(payload, n)[i] == PixelPath.Word(payload, i * 4);
  }

  /** An upload goes to the back buffer, made anew unless it has the surface's size; without one
      it goes straight to the front buffer, whatever its size, and is presented at once. */
  function UploadSlot(slot: Slot, payload: seq<bv8>): Result<Slot, Error> {
    var n := slot.surface.width * slot.surface.height;
    if |payload| != n * 4 then Err(BadPayload)
    else if slot.back.Some? then Ok(slot.(back := Some(Words(payload, n))))
    else
      var front := if slot.front.Some? then slot.front.value else Blank(n);
      if |front| < n then Err(Panicked)
      else Ok(slot.(front := Some(Words(payload, n) + front[n..]), presented := true))
  }

  ghost function Edited(slot: Slot, change: Change): Result<Slot, Error> {
    match change
    case MoveTo(x, y, z) => Ok(slot.(surface := slot.surface.(x := x, y := y, z := z)))
    case SetZ(z) => Ok(slot.(surface := slot.surface.(z := z)))
    case SetGeometry(x, y, w, h) =>
      Ok(slot.(surface := slot.surface.(x := x, y := y, width := w, height := h)))
    case Flip => Ok(FlipSlot(slot))
    case Present => Ok(slot.(presented := true))
    case Submit(bytes, rowBytes, beyond) => SubmitSlot(slot, bytes, rowBytes, beyond)
    case Upload(payload) => UploadSlot(slot, payload)
    case Destroy => Ok(EmptySlot())
  }

  /** Size checks come before the lookup. */
  function Precheck(change: Change): Option<Error> {
    if change.SetGeometry? then SizeError(change.w, change.h) else None
  }

  ghost function EditTable(t: Table, caller: Caller, id: nat, change: Change): (Table, Result<nat, Error>) {
    if Precheck(change).Some? then (t, Err(Precheck(change).value))
    else
      match Locate(t.slots, caller, id)
      case Err(e) => (t, Err(e))
      case Ok(i) =>
        match Edited(t.slots[i], change)
        case Err(e) => (t, Err(e))
        case Ok(slot) => (t.(slots := t.slots[i := slot]), Ok(i))
  }

  /** The first loop of a render: submitted frames move to the front. */
  function Flipped(slot: Slot): Slot {
    if slot.pending then slot.(front := slot.back, back := slot.front, pending := false, presented := true)
    else slot
  }

  /** A submitted back buffer and the front buffer change places, and the surface is presented;
      without one nothing changes. */
  predicate PendingShown(was: Slot, now: Slot) {
    if was.pending then now == Slot(was.surface, was.owner, was.back, was.front, true, false) else now == was
  }

  function FlippedAll(slots: seq<Slot>): seq<Slot> {
    seq(|slots|, i requires 0 <= i < |slots| => Flipped(slots[i]))
  }

  ghost function Apply(t: Table, op: Op): Table {
    match op
    case Create(caller, w, h) => Created(t, caller, w, h).0
    case Edit(caller, id, change) => EditTable(t, caller, id, change).0
    case FlipPending => t.(slots := FlippedAll(t.slots))
  }

  ghost function ApplyAll(t: Table, ops: seq<Op>): Table {
    if ops == [] then t else Apply(ApplyAll(t, ops[..|ops| - 1]), ops[|ops| - 1])
  }

  // ── What every run keeps ───────────────────────────────────────────────────

  /** A free slot holds nothing; a live one has a front buffer and an accepted size. */
  ghost predicate Clean(slots: seq<Slot>) {
    forall i :: 0 <= i < |slots| ==> CleanSlot(slots[i])
  }

  predicate CleanSlot(slot: Slot) {
    && (!slot.surface.inUse ==> slot == EmptySlot())
    && (slot.surface.inUse ==> slot.front.Some? && SizeError(slot.surface.width, slot.surface.height).None?)
    && (slot.pending ==> slot.back.Some?)
  }

  /** `created` counts the successful creates. */
  ghost predicate Ids(t: Table, created: nat) {
    && created < U32 && t.nextId == (if created == U32 - 1 then 1 else created + 1)
    && (forall i :: 0 <= i < |t.slots| && t.slots[i].surface.inUse ==> 1 <= t.slots[i].surface.id <= created)
    && DistinctIds(t.slots)
  }

  ghost predicate DistinctIds(slots: seq<Slot>) {
    forall i, j :: 0 <= i < j < |slots| && slots[i].surface.inUse && slots[j].surface.inUse ==>
      slots[i].surface.id != slots[j].surface.id
  }

  ghost predicate Limited(slots: seq<Slot>) {
    forall leader: nat :: leader != 0 ==> Owned(slots, leader, |slots|) <= MAX_PER_GROUP
  }

  function Start(): Table {
    Table(seq(MAX_SURFACES, _ => EmptySlot()), 1)
  }

  lemma {:induction false} OwnedUpdated(slots: seq<Slot>, i: nat, slot: Slot, leader: nat, k: nat)
    requires i < |slots| && k <= |slots|
    ensures Owned(slots[i := slot], leader, k) + (if i < k && OwnedBy(slots[i], leader) then 1 else 0)
         == Owned(slots, leader, k) + (if i < k && OwnedBy(slot, leader) then 1 else 0)
  {
    hide OwnedBy;
    if k > 0 {
      OwnedUpdated(slots, i, slot, leader, k - 1);
    }
  }

  /** An edit keeps the id and the owner, or empties the slot. */
  lemma EditedSlot(slot: Slot, change: Change)
    requires CleanSlot(slot) && slot.surface.inUse && Precheck(change).None?
    ensures var r := Edited(slot, change);
            r.Ok? ==>
              && CleanSlot(r.value)
              && (r.value.surface.inUse ==> r.value.surface.id == slot.surface.id && r.value.owner == slot.owner)
  {
  }

  lemma CreateClean(t: Table, caller: Caller, w: nat, h: nat)
    requires Clean(t.slots)
    ensures Clean(Created(t, caller, w, h).0.slots)
  {
    hide Owned, Blank;
  }

  lemma CreateIds(t: Table, created: nat, caller: Caller, w: nat, h: nat)
    requires Ids(t, created) && created < U32 - 1
    ensures var (t', r) := Created(t, caller, w, h);
            Ids(t', if r.Ok? then created + 1 else created)
  {
    hide Owned, Blank;
  }

  lemma CreateLimited(t: Table, caller: Caller, w: nat, h: nat)
    requires Limited(t.slots)
    ensures Limited(Created(t, caller, w, h).0.slots)
  {
    hide Blank, Owned, SizeError;
    var t' := Created(t, caller, w, h).0;
    if t' != t {
      var i := FirstFree(t.slots, 0).value;
      forall leader: nat | leader != 0 ensures Owned(t'.slots, leader, |t'.slots|) <= MAX_PER_GROUP {
        OwnedUpdated(t.slots, i, t'.slots[i], leader, |t.slots|);
      }
    }
  }

  lemma EditClean(t: Table, caller: Caller, id: nat, change: Change)
    requires Clean(t.slots) && Limited(t.slots)
    ensures var t' := EditTable(t, caller, id, change).0;
            Clean(t'.slots) && Limited(t'.slots)
  {
    hide Edited, Owned, SizeError;
    var t' := EditTable(t, caller, id, change).0;
    if t' != t {
      var i := Locate(t.slots, caller, id).value;
      EditedSlot(t.slots[i], change);
      forall leader: nat | leader != 0 ensures Owned(t'.slots, leader, |t'.slots|) <= MAX_PER_GROUP {
        OwnedUpdated(t.slots, i, t'.slots[i], leader, |t.slots|);
      }
    }
  }

  lemma EditIds(t: Table, created: nat, caller: Caller, id: nat, change: Change)
    requires Clean(t.slots) && Ids(t, created)
    ensures Ids(EditTable(t, caller, id, change).0, created)
  {
    hide Edited, Owned, SizeError;
    var t' := EditTable(t, caller, id, change).0;
    if t' != t {
      var i := Locate(t.slots, caller, id).value;
      EditedSlot(t.slots[i], change);
    }
  }

  lemma {:induction false} FlipOwned(slots: seq<Slot>, leader: nat, k: nat)
    requires k <= |slots|
    ensures Owned(FlippedAll(slots), leader, k) == Owned(slots, leader, k)
  {
    if k > 0 {
      FlipOwned(slots, leader, k - 1);
    }
  }

  lemma FlipClean(t: Table)
    requires Clean(t.slots) && Limited(t.slots)
    ensures Clean(FlippedAll(t.slots)) && Limited(FlippedAll(t.slots))
  {
    hide Owned;
    forall leader: nat | leader != 0 ensures Owned(FlippedAll(t.slots), leader, |t.slots|) <= MAX_PER_GROUP {
      FlipOwned(t.slots, leader, |t.slots|);
    }
  }

  /** Beyond the first 2^32 - 1 creates the counter wraps, and a create keeps ids distinct
      exactly when no live surface still has the id it hands out. */
  lemma WrappedIdsDistinct(t: Table, caller: Caller, w: nat, h: nat)
    requires DistinctIds(t.slots)
    ensures var (t', r) := Created(t, caller, w, h);
            r.Ok? ==> (DistinctIds(t'.slots) <==> Find(t.slots, t.nextId, 0).None?)
  {
    hide Owned, Blank, SizeError;
    var (t', r) := Created(t, caller, w, h);
    if r.Ok? {
      var i := FirstFree(t.slots, 0).value;
      assert Has(t'.slots[i], t.nextId);
      var found := Find(t.slots, t.nextId, 0);
      if found.Some? {
        assert Has(t'.slots[found.value], t.nextId) && found.value != i;
      }
    }
  }

  // ── Runs ───────────────────────────────────────────────────────────────────

  ghost predicate IsRun(tables: seq<Table>, ops: seq<Op>) {
    && |tables| == |ops| + 1 && tables[0] == Start()
    && forall k :: 0 <= k < |ops| ==> tables[k + 1] == Apply(tables[k], ops[k])
  }

  predicate Creates(t: Table, op: Op) {
    op.Create? && Created(t, op.caller, op.w, op.h).1.Ok?
  }

  ghost function CreateCount(tables: seq<Table>, ops: seq<Op>, k: nat): nat
    requires k <= |ops| <= |tables|
  {
    if k == 0 then 0
    else CreateCount(tables, ops, k - 1) + if Creates(tables[k - 1], ops[k - 1]) then 1 else 0
  }

  lemma {:induction false} StartOwnsNothing(leader: nat, k: nat)
    requires k <= MAX_SURFACES
    ensures Owned(Start().slots, leader, k) == 0
  {
    if k > 0 {
      StartOwnsNothing(leader, k - 1);
    }
  }

  lemma StartIsSafe()
    ensures Clean(Start().slots) && Limited(Start().slots) && Ids(Start(), 0)
  {
    hide Owned;
    forall leader: nat ensures Owned(Start().slots, leader, MAX_SURFACES) == 0 {
      StartOwnsNothing(leader, MAX_SURFACES);
    }
  }

  lemma ApplyClean(t: Table, op: Op)
    requires Clean(t.slots) && Limited(t.slots)
    ensures Clean(Apply(t, op).slots) && Limited(Apply(t, op).slots)
  {
    hide Clean, Limited, EditTable, Created, FlippedAll;
    match op
    case Create(caller, w, h) => CreateClean(t, caller, w, h); CreateLimited(t, caller, w, h);
    case Edit(caller, id, change) => EditClean(t, caller, id, change);
    case FlipPending => FlipClean(t);
  }

  lemma {:induction false} ApplyAllClean(t: Table, ops: seq<Op>)
    requires Clean(t.slots) && Limited(t.slots)
    ensures Clean(ApplyAll(t, ops).slots) && Limited(ApplyAll(t, ops).slots)
  {
    hide Clean, Limited, Apply;
    if ops != [] {
      ApplyAllClean(t, ops[..|ops| - 1]);
      ApplyClean(ApplyAll(t, ops[..|ops| - 1]), ops[|ops| - 1]);
    }
  }

  /** In every state of every run a free slot holds no owner, buffer, pending or presented
      flag, and no group owns more than eight surfaces. */
  lemma {:induction false} AlwaysClean(tables: seq<Table>, ops: seq<Op>, k: nat)
    requires IsRun(tables, ops) && k < |tables|
    ensures Clean(tables[k].slots) && Limited(tables[k].slots)
  {
    hide Clean, Limited, Apply, Start;
    if k == 0 {
      StartIsSafe();
    } else {
      AlwaysClean(tables, ops, k - 1);
      ApplyClean(tables[k - 1], ops[k - 1]);
    }
  }

  lemma ApplyIds(t: Table, created: nat, op: Op)
    requires Clean(t.slots) && Ids(t, created)
    requires created + (if Creates(t, op) then 1 else 0) < U32
    ensures Ids(Apply(t, op), created + if Creates(t, op) then 1 else 0)
  {
    hide EditTable, Owned, Blank;
    match op
    case Create(caller, w, h) => if Creates(t, op) { CreateIds(t, created, caller, w, h); }
    case Edit(caller, id, change) => EditIds(t, created, caller, id, change);
    case FlipPending =>
  }

  /** Live surfaces have distinct nonzero ids as long as at most 2^32 - 1 were created. */
  lemma {:induction false} IdsStayDistinct(tables: seq<Table>, ops: seq<Op>, k: nat)
    requires IsRun(tables, ops) && k < |tables| && CreateCount(tables, ops, k) < U32
    ensures Ids(tables[k], CreateCount(tables, ops, k))
  {
    hide Ids, Clean, Limited, Apply, Start, Creates;
    if k == 0 {
      StartIsSafe();
    } else {
      IdsStayDistinct(tables, ops, k - 1);
      AlwaysClean(tables, ops, k - 1);
      ApplyIds(tables[k - 1], CreateCount(tables, ops, k - 1), ops[k - 1]);
    }
  }

  // ── A run in which ids collide ─────────────────────────────────────────────

  /** The id handed out after the first surface and `n` more. */
  function IdAfter(n: nat): nat {
    if n < U32 - 2 then n + 2 else 1
  }

  /** Surface 1 lives, after `n` others came and went. */
  function OneLeft(n: nat): Table {
    Table(Start().slots[0 := Fresh(EmptySlot(), 1, 0, 1, 1)], IdAfter(n))
  }

  /** Beside it a second one. */
  function TwoLeft(n: nat): Table {
    Table(OneLeft(n).slots[1 := Fresh(EmptySlot(), IdAfter(n), 0, 1, 1)], NextId(IdAfter(n)))
  }

  lemma OneComes(n: nat)
    ensures Apply(OneLeft(n), Create(Kernel, 1, 1)) == TwoLeft(n)
  {
    hide Owned, IdAfter;
    var slots := OneLeft(n).slots;
    assert FirstFree(slots, 1) == Some(1);
    assert slots[1] == EmptySlot();
  }

  lemma OneGoes(n: nat)
    requires n < U32 - 2
    ensures Apply(TwoLeft(n), Edit(Kernel, IdAfter(n), Destroy)) == OneLeft(n + 1)
  {
    hide Owned;
    var slots := TwoLeft(n).slots;
    assert Find(slots, IdAfter(n), 1) == Some(1);
    assert slots[1 := EmptySlot()] == OneLeft(n).slots;
  }

  lemma Longer(tables: seq<Table>, ops: seq<Op>, op: Op) returns (tables': seq<Table>, ops': seq<Op>)
    requires IsRun(tables, ops)
    ensures IsRun(tables', ops') && |ops'| == |ops| + 1 && tables'[|ops'|] == Apply(tables[|ops|], op)
  {
    hide Apply, Start;
    tables', ops' := tables + [Apply(tables[|ops|], op)], ops + [op];
  }

  lemma {:induction false} OneLeftRun(n: nat) returns (tables: seq<Table>, ops: seq<Op>)
    requires n <= U32 - 2
    ensures IsRun(tables, ops) && |ops| == 2 * n + 1 && tables[|ops|] == OneLeft(n)
  {
    hide Apply, OneLeft, TwoLeft, Start;
    if n == 0 {
      tables, ops := Longer([Start()], [], Create(Kernel, 1, 1));
      FirstComes();
    } else {
      tables, ops := OneLeftRun(n - 1);
      OneComes(n - 1);
      OneGoes(n - 1);
      tables, ops := Longer(tables, ops, Create(Kernel, 1, 1));
      tables, ops := Longer(tables, ops, Edit(Kernel, IdAfter(n - 1), Destroy));
    }
  }

  lemma FirstComes()
    ensures Apply(Start(), Create(Kernel, 1, 1)) == OneLeft(0)
  {
    hide Owned;
  }

  /** Ids do collide: when surface 1 outlives 2^32 - 2 others, the next create makes a second
      surface 1. */
  lemma IdsCollide() returns (tables: seq<Table>, ops: seq<Op>)
    ensures IsRun(tables, ops) && |ops| == 2 * (U32 - 2) + 2
    ensures var slots := tables[|ops|].slots;
            && |slots| == MAX_SURFACES && Has(slots[0], 1) && Has(slots[1], 1) && !DistinctIds(slots)
  {
    hide Apply;
    tables, ops := OneLeftRun(U32 - 2);
    OneComes(U32 - 2);
    tables, ops := Longer(tables, ops, Create(Kernel, 1, 1));
  }

  // ── Buffers large enough to draw ───────────────────────────────────────────

  function Area(surface: Surface): nat {
    surface.width * surface.height
  }

  predicate Roomy(slot: Slot) {
    slot.surface.inUse ==>
      && slot.front.Some? && |slot.front.value| >= Area(slot.surface)
      && (slot.back.Some? ==> |slot.back.value| >= Area(slot.surface))
  }

  ghost predicate AllRoomy(slots: seq<Slot>) {
    forall i :: 0 <= i < |slots| ==> Roomy(slots[i])
  }

  /** The one operation that can outgrow the buffers is a geometry change to a larger area. */
  predicate Grows(t: Table, op: Op) {
    && op.Edit? && op.change.SetGeometry?
    && var at := Locate(t.slots, op.caller, op.id);
       at.Ok? && op.change.w * op.change.h > Area(t.slots[at.value].surface)
  }

  lemma EditedRoomy(slot: Slot, change: Change)
    requires CleanSlot(slot) && slot.surface.inUse && Roomy(slot)
    requires change.SetGeometry? ==> change.w * change.h <= Area(slot.surface)
    ensures Edited(slot, change).Ok? ==> Roomy(Edited(slot, change).value)
  {
  }

  lemma FreshRoomy(slot: Slot, id: nat, owner: nat, w: nat, h: nat)
    requires slot.back.None?
    ensures Roomy(Fresh(slot, id, owner, w, h))
  {
  }

  lemma RoomyKept(t: Table, op: Op)
    requires Clean(t.slots) && AllRoomy(t.slots) && !Grows(t, op)
    ensures AllRoomy(Apply(t, op).slots)
  {
    hide Edited, Owned, SizeError, Area;
    if op.Edit? {
      var at := Locate(t.slots, op.caller, op.id);
      if at.Ok? {
        EditedRoomy(t.slots[at.value], op.change);
      }
    } else if op.Create? {
      var free := FirstFree(t.slots, 0);
      if free.Some? {
        FreshRoomy(t.slots[free.value], t.nextId, LeaderOf(op.caller), op.w, op.h);
      }
    }
  }

  /** An upload of the right size panics exactly when it goes to a front buffer that a geometry
      change outgrew; a surface whose buffers hold its area is never there. */
  lemma UploadPanics(slot: Slot, payload: seq<bv8>)
    requires CleanSlot(slot) && slot.surface.inUse && |payload| == Area(slot.surface) * 4
    ensures UploadSlot(slot, payload) == Err(Panicked) <==>
              slot.back.None? && |slot.front.value| < Area(slot.surface)
    ensures Roomy(slot) ==> UploadSlot(slot, payload).Ok?
    ensures UploadSlot(slot, payload).Ok? ==>
              var shown := UploadSlot(slot, payload).value;
              var target := if slot.back.Some? then shown.back else shown.front;
              && target.Some? && |target.value| >= Area(slot.surface)
              && forall i :: 0 <= i < Area(slot.surface) ==> target.value[i] == PixelPath.Word(payload, i * 4)
  {
    hide PixelPath.Word;
  }

  /** Without such a change every live surface can always be drawn whole. */
  lemma {:induction false} AlwaysRoomy(tables: seq<Table>, ops: seq<Op>, k: nat)
    requires IsRun(tables, ops) && k < |tables|
    requires forall j :: 0 <= j < k ==> !Grows(tables[j], ops[j])
    ensures AllRoomy(tables[k].slots)
  {
    hide Clean, Limited, Apply, Grows, Roomy;
    if k == 0 {
      assert AllRoomy(Start().slots) by { StartRoomy(); }
    } else {
      AlwaysRoomy(tables, ops, k - 1);
      AlwaysClean(tables, ops, k - 1);
      RoomyKept(tables[k - 1], ops[k - 1]);
    }
  }

  lemma StartRoomy()
    ensures AllRoomy(Start().slots)
  {
  }

  // ── Isolation ──────────────────────────────────────────────────────────────

  /** The newest complete frame of a surface: the submitted one, shown or about to be. */
  function Latest(slot: Slot): Option<Pixels> {
    if slot.pending then slot.back else slot.front
  }

  predicate Untouched(before: Slot, after: Slot) {
    after.surface == before.surface && after.owner == before.owner && Latest(after) == Latest(before)
  }

  /** No step of a process group, and no render, changes the geometry, owner or newest frame
      of another group's surface. */
  lemma OthersUntouched(t: Table, op: Op, i: nat, leader: nat)
    requires Clean(t.slots) && i < |t.slots| && t.slots[i].surface.inUse
    requires op.FlipPending? || (op.caller == Group(leader) && t.slots[i].owner != leader)
    ensures |Apply(t, op).slots| == |t.slots| && Untouched(t.slots[i], Apply(t, op).slots[i])
  {
    hide Edited, Owned, Blank, SizeError;
  }

  // ── Who may do what ────────────────────────────────────────────────────────

  /** The first slot that holds the surface of that id. */
  ghost predicate Foremost(slots: seq<Slot>, id: nat, i: nat) {
    i < |slots| && Has(slots[i], id) && forall j :: 0 <= j < i ==> !Has(slots[j], id)
  }

  /** A geometry the compositor accepts; other operations have none. */
  predicate SizeAccepted(change: Change) {
    change.SetGeometry? ==> change.w > 0 && change.h > 0 && change.w * change.h <= 4147200
  }

  lemma {:induction false} FindIs(slots: seq<Slot>, id: nat, i: nat, k: nat)
    requires Foremost(slots, id, i) && k <= i
    ensures Find(slots, id, k) == Some(i)
    decreases i - k
  {
    if k < i {
      FindIs(slots, id, i, k + 1);
    }
  }

  /** The kernel may act on every surface and a group on its own. */
  ghost predicate Mine(slot: Slot, caller: Caller) {
    match caller
    case Kernel => true
    case Group(leader) => leader == slot.owner
  }

  /** An operation on a live surface is denied if and only if the caller is a group that does not
      own it; on an id that is not there it finds no surface; a bad size is refused before either. */
  lemma EditDenied(t: Table, caller: Caller, id: nat, change: Change)
    ensures var r := EditTable(t, caller, id, change).1;
            && (change.SetGeometry? && (change.w == 0 || change.h == 0) ==> r == Err(InvalidSize))
            && (change.SetGeometry? && change.w > 0 && change.h > 0 && change.w * change.h > 4147200 ==> r == Err(TooLarge))
            && (SizeAccepted(change) && (forall i :: 0 <= i < |t.slots| ==> !Has(t.slots[i], id)) ==> r == Err(NoSuchSurface))
            && (forall i: nat :: Foremost(t.slots, id, i) && SizeAccepted(change) ==>
                  (r == Err(Denied) <==> !Mine(t.slots[i], caller)))
  {
    hide Edited, Find;
    forall i: nat | Foremost(t.slots, id, i) && SizeAccepted(change)
      ensures EditTable(t, caller, id, change).1 == Err(Denied) <==> !Mine(t.slots[i], caller)
    {
      FindIs(t.slots, id, i, 0);
      NeverDenied(t.slots[i], change);
    }
  }

  lemma NeverDenied(slot: Slot, change: Change)
    ensures Edited(slot, change) != Err(Denied)
  {
    hide PixelPath.OnePass, Words, Blank;
  }

  /** What each operation does to its own surface. */
  ghost predicate Does(was: Slot, change: Change, now: Slot)
    requires was.surface.inUse
  {
    var f := was.surface;
    match change
    case MoveTo(x, y, z) => now == was.(surface := Surface(f.id, x, y, f.width, f.height, z, true))
    case SetZ(z) => now == was.(surface := Surface(f.id, f.x, f.y, f.width, f.height, z, true))
    case SetGeometry(x, y, w, h) => now == was.(surface := Surface(f.id, x, y, w, h, f.z, true))
    case Flip =>
      && now == was.(front := now.front, back := was.front, presented := true)
      && (was.back.Some? ==> now.front == was.back) && (was.back.None? && was.front.Some? ==> now.front == was.front)
    case Present => now == was.(presented := true)
    case Submit(bytes, rowBytes, beyond) =>
      var rowPx := if rowBytes == 0 then f.width else rowBytes / 4;
      && PixelPath.Fits(bytes + beyond, f.width, rowPx, f.height)
      && now == was.(back := Some(PixelPath.OnePass(bytes + beyond, f.width, rowPx, f.height, f.height)), pending := true)
    case Upload(payload) =>
      && |payload| == f.width * f.height * 4
      && (was.back.Some? ==> now == was.(back := Some(Words(payload, f.width * f.height))))
      && (was.back.None? ==> now == was.(front := now.front, presented := true))
    case Destroy => now == Slot(Surface(0, 0, 0, 0, 0, 0, false), 0, None, None, false, false)
  }

  /** An owner's or the kernel's operation on a live surface, if it is not refused for its size,
      payload or buffers, succeeds with exactly its effect on that surface and none on another. */
  lemma EditMeans(t: Table, caller: Caller, id: nat, change: Change, i: nat)
    requires Foremost(t.slots, id, i) && Mine(t.slots[i], caller) && SizeAccepted(change)
    ensures var (t', r) := EditTable(t, caller, id, change);
            && t'.nextId == t.nextId && |t'.slots| == |t.slots|
            && (forall j :: 0 <= j < |t.slots| && j != i ==> t'.slots[j] == t.slots[j])
            && (if r.Ok? then r == Ok(i) && Does(t.slots[i], change, t'.slots[i]) else t' == t)
            && (r.Err? ==> change.Submit? || change.Upload?)
  {
    hide Find, PixelPath.OnePass, Words, Blank, PixelPath.Fits;
    FindIs(t.slots, id, i, 0);
  }

  /** A submit by the owner or the kernel is taken if and only if the payload passes the size check
      and what it reads is mapped. */
  lemma SubmitTaken(t: Table, caller: Caller, id: nat, i: nat, bytes: Slice, rowBytes: Usize, beyond: seq<bv8>)
    requires Foremost(t.slots, id, i) && Mine(t.slots[i], caller)
    ensures var f := t.slots[i].surface;
            var rowPx := if rowBytes == 0 then f.width else rowBytes / 4;
            EditTable(t, caller, id, Submit(bytes, rowBytes, beyond)).1 ==
            if |bytes| < rowPx * 4 * f.height % 0x1_0000_0000_0000_0000 then Err(BadPayload)
            else if !PixelPath.Fits(bytes + beyond, f.width, rowPx, f.height) then Err(Faulted)
            else Ok(i)
  {
    hide Find, PixelPath.OnePass, PixelPath.Fits;
    FindIs(t.slots, id, i, 0);
  }

  /** The slots of a group's live surfaces among the first `k`. */
  ghost function SlotsOf(slots: seq<Slot>, leader: nat, k: nat): set<nat>
    requires k <= |slots|
  {
    set i: nat | i < k && slots[i].surface.inUse && slots[i].owner == leader
  }

  lemma {:induction false} OwnedIsCount(slots: seq<Slot>, leader: nat, k: nat)
    requires k <= |slots|
    ensures Owned(slots, leader, k) == |SlotsOf(slots, leader, k)|
  {
    hide SlotsOf;
    SlotsOfStep(slots, leader, k);
    if k > 0 {
      OwnedIsCount(slots, leader, k - 1);
    }
  }

  lemma SlotsOfStep(slots: seq<Slot>, leader: nat, k: nat)
    requires k <= |slots|
    ensures k == 0 ==> SlotsOf(slots, leader, k) == {}
    ensures k > 0 ==> k - 1 !in SlotsOf(slots, leader, k - 1)
    ensures k > 0 ==> SlotsOf(slots, leader, k) ==
                      SlotsOf(slots, leader, k - 1) + if slots[k - 1].surface.inUse && slots[k - 1].owner == leader then {k - 1} else {}
  {
  }

  /** A new surface in the first free slot, and the next id, past 0 when it wraps. */
  ghost predicate MadeAt(t: Table, t': Table, i: nat, owner: nat, w: nat, h: nat) {
    && i < |t.slots| && !t.slots[i].surface.inUse && (forall j :: 0 <= j < i ==> t.slots[j].surface.inUse)
    && t'.slots == t.slots[i := Slot(Surface(t.nextId, 0, 0, w, h, 0, true), owner, Some(seq(w * h, _ => 0)), None, false, false)]
    && t'.nextId == (if t.nextId % 0x1_0000_0000 == 0xFFFF_FFFF then 1 else (t.nextId + 1) % 0x1_0000_0000)
  }

  /** A create succeeds if and only if the size is accepted, the group has fewer than eight surfaces
      and a slot is free; it then makes, in the first free slot, a surface of that size at the
      origin, all black, not yet presented, under the next id, and touches nothing else. */
  lemma CreateMeans(t: Table, caller: Caller, w: nat, h: nat)
    requires Clean(t.slots)
    ensures var (t', r) := Created(t, caller, w, h);
            var owner := match caller case Kernel => 0 case Group(leader) => leader;
            && (r.Ok? <==> && w > 0 && h > 0 && w * h <= 4147200 && (owner == 0 || |SlotsOf(t.slots, owner, |t.slots|)| < 8)
                           && exists i :: 0 <= i < |t.slots| && !t.slots[i].surface.inUse)
            && (r.Err? ==> t' == t)
            && (r.Ok? ==> r.value == t.nextId && exists i :: MadeAt(t, t', i, owner, w, h))
  {
    hide Owned;
    OwnedIsCount(t.slots, LeaderOf(caller), |t.slots|);
    FirstFreeIs(t.slots, 0);
    if Created(t, caller, w, h).1.Ok? {
      var i := FirstFree(t.slots, 0).value;
      assert CleanSlot(t.slots[i]);
      assert Fresh(t.slots[i], t.nextId, LeaderOf(caller), w, h) ==
             Slot(Surface(t.nextId, 0, 0, w, h, 0, true), LeaderOf(caller), Some(seq(w * h, _ => 0)), None, false, false);
      assert MadeAt(t, Created(t, caller, w, h).0, i, LeaderOf(caller), w, h);
    }
  }

  lemma {:induction false} FirstFreeIs(slots: seq<Slot>, k: nat)
    requires k <= |slots|
    ensures var r := FirstFree(slots, k);
            r.Some? ==> forall j :: k <= j < r.value ==> slots[j].surface.inUse
    decreases |slots| - k
  {
    if k < |slots| && slots[k].surface.inUse {
      FirstFreeIs(slots, k + 1);
    }
  }

  // ── Operations together ────────────────────────────────────────────────────

  /** An accepted submit comes from the owner or the kernel, and what it read is what the next
      render brings to the front; inside the payload that is the payload's own pixels. */
  lemma SubmitThenRender(t: Table, caller: Caller, id: nat, bytes: Slice, rowBytes: Usize, beyond: seq<bv8>)
    requires EditTable(t, caller, id, Submit(bytes, rowBytes, beyond)).1.Ok?
    ensures var (t', r) := EditTable(t, caller, id, Submit(bytes, rowBytes, beyond));
            var i := r.value;
            && i < |t.slots| && Has(t.slots[i], id) && Permitted(t.slots[i], caller)
            && var (w, h) := (t.slots[i].surface.width, t.slots[i].surface.height);
            var rowPx := PixelPath.RowPixels(w, rowBytes);
            var slot := FlippedAll(t'.slots)[i];
            && PixelPath.Fits(bytes + beyond, w, rowPx, h) && slot.surface == t.slots[i].surface
            && slot.front == Some(PixelPath.OnePass(bytes + beyond, w, rowPx, h, h)) && slot.presented && !slot.pending
            && (PixelPath.Fits(bytes, w, rowPx, h) ==> slot.front == Some(PixelPath.OnePass(bytes, w, rowPx, h, h)))
  {
    hide PixelPath.OnePass;
    var i := EditTable(t, caller, id, Submit(bytes, rowBytes, beyond)).1.value;
    var w, h := t.slots[i].surface.width, t.slots[i].surface.height;
    var rowPx := PixelPath.RowPixels(w, rowBytes);
    if PixelPath.Fits(bytes, w, rowPx, h) {
      PixelPath.BeyondUnread(bytes, beyond, w, rowPx, h, h);
    }
  }

  /** An accepted submit neither faults nor depends on anything but its payload exactly when the
      size product did not wrap, and a row fits the stride or the payload reaches past the last
      row: otherwise nothing after the payload makes it fault, and two contents there make two
      frames. */
  lemma SubmitDependsOnPayload(slot: Slot, bytes: Slice, rowBytes: Usize) returns (a: seq<bv8>, b: seq<bv8>)
    requires 1 <= slot.surface.width < U32 && slot.surface.height >= 1
    requires PixelPath.Accepted(bytes, PixelPath.RowPixels(slot.surface.width, rowBytes), slot.surface.height)
    ensures var w := slot.surface.width;
            var rowPx := PixelPath.RowPixels(w, rowBytes);
            var size := rowPx * 4 * slot.surface.height;
            if size < PixelPath.U64 && (w <= rowPx || |bytes| >= size + (w - rowPx) * 4)
            then forall beyond :: SubmitSlot(slot, bytes, rowBytes, beyond) == SubmitSlot(slot, bytes, rowBytes, [])
                                  && SubmitSlot(slot, bytes, rowBytes, beyond).Ok?
            else && SubmitSlot(slot, bytes, rowBytes, []) == Err(Faulted)
                 && SubmitSlot(slot, bytes, rowBytes, a).Ok? && SubmitSlot(slot, bytes, rowBytes, b).Ok?
                 && SubmitSlot(slot, bytes, rowBytes, a) != SubmitSlot(slot, bytes, rowBytes, b)
  {
    hide PixelPath.OnePass;
    var w, h := slot.surface.width, slot.surface.height;
    var rowPx := PixelPath.RowPixels(w, rowBytes);
    PixelPath.AcceptedFits(bytes, w, rowPx, h);
    a, b := [], [];
    assert bytes + [] == bytes;
    if PixelPath.Fits(bytes, w, rowPx, h) {
      forall beyond ensures SubmitSlot(slot, bytes, rowBytes, beyond) == SubmitSlot(slot, bytes, rowBytes, [])
                            && SubmitSlot(slot, bytes, rowBytes, beyond).Ok? {
        PixelPath.BeyondUnread(bytes, beyond, w, rowPx, h, h);
      }
    } else {
      a, b := PixelPath.BeyondShows(bytes, w, rowPx, h);
    }
  }

  /** Flipping twice shows the first buffer again. */
  lemma FlipTwice(slot: Slot)
    requires slot.front.Some? && slot.back.Some?
    ensures var twice := FlipSlot(FlipSlot(slot));
            twice.front == slot.front && twice.back == slot.back && FlipSlot(slot).front == slot.back
  {
  }

  /** A destroyed surface is gone: its id is not found, its slot is free, no other slot moved. */
  lemma DestroyFrees(t: Table, caller: Caller, id: nat)
    requires DistinctIds(t.slots) && EditTable(t, caller, id, Destroy).1.Ok?
    ensures var (t', r) := EditTable(t, caller, id, Destroy);
            && Find(t'.slots, id, 0).None? && r.value < |t.slots| && t'.slots == t.slots[r.value := EmptySlot()]
            && t'.nextId == t.nextId
  {
  }

  // ── The table as the kernel keeps it ───────────────────────────────────────

  class Compositor {
    var slots: seq<Slot>
    var nextId: nat

    function Now(): Table
      reads this
    {
      Table(slots, nextId)
    }

    constructor ()
      ensures Now() == Start() && |slots| == 32 && nextId == 1 && forall i :: 0 <= i < 32 ==> !slots[i].surface.inUse
    {
      slots := seq(MAX_SURFACES, _ => EmptySlot());
      nextId := 1;
    }

    method Position(id: nat) returns (r: Option<nat>)
      ensures r == Find(slots, id, 0)
    {
      var i := 0;
      while i < |slots|
        invariant 0 <= i <= |slots|
        invariant Find(slots, id, 0) == Find(slots, id, i)
      {
        if Has(slots[i], id) {
          return Some(i);
        }
        i := i + 1;
      }
      return None;
    }

    method LocateFor(caller: Caller, id: nat) returns (r: Result<nat, Error>)
      ensures r == Locate(slots, caller, id)
    {
      var at := Position(id);
      match at
      case None => r := Err(NoSuchSurface);
      case Some(i) => r := if Permitted(slots[i], caller) then Ok(i) else Err(Denied);
    }

    method CountOwned(leader: nat) returns (n: nat)
      ensures n == Owned(slots, leader, |slots|)
    {
      n := 0;
      var i := 0;
      while i < |slots|
        invariant 0 <= i <= |slots| && n == Owned(slots, leader, i)
      {
        if OwnedBy(slots[i], leader) {
          n := n + 1;
        }
        i := i + 1;
      }
    }

    method FreeSlot() returns (r: Option<nat>)
      ensures r == FirstFree(slots, 0)
    {
      var i := 0;
      while i < |slots|
        invariant 0 <= i <= |slots|
        invariant FirstFree(slots, 0) == FirstFree(slots, i)
      {
        if !slots[i].surface.inUse {
          return Some(i);
        }
        i := i + 1;
      }
      return None;
    }

    method CreateSurface(caller: Caller, w: nat, h: nat) returns (r: Result<nat, Error>)
      modifies this
      ensures (Now(), r) == Created(old(Now()), caller, w, h)
    {
      hide Owned, Fresh;
      var bad := SizeError(w, h);
      if bad.Some? {
        return Err(bad.value);
      }
      var owner := LeaderOf(caller);
      var owned := CountOwned(owner);
      if owner != 0 && owned >= MAX_PER_GROUP {
        return Err(GroupLimit);
      }
      var free := FreeSlot();
      if free.None? {
        return Err(TableFull);
      }
      var i := free.value;
      var id := nextId;
      slots := slots[i := Fresh(slots[i], id, owner, w, h)];
      nextId := NextId(nextId);
      return Ok(id);
    }

    method EditSurface(caller: Caller, id: nat, change: Change) returns (r: Result<nat, Error>)
      modifies this
      ensures (Now(), r) == EditTable(old(Now()), caller, id, change)
    {
      hide SubmitSlot, FlipSlot, Locate;
      var bad := Precheck(change);
      if bad.Some? {
        return Err(bad.value);
      }
      r := LocateFor(caller, id);
      if r.Err? {
        return;
      }
      LocateInside(slots, caller, id);
      var i := r.value;
      var s := slots[i];
      match change
      case MoveTo(x, y, z) => slots := slots[i := s.(surface := s.surface.(x := x, y := y, z := z))];
      case SetZ(z) => slots := slots[i := s.(surface := s.surface.(z := z))];
      case SetGeometry(x, y, w, h) =>
        slots := slots[i := s.(surface := s.surface.(x := x, y := y, width := w, height := h))];
      case Flip => slots := slots[i := FlipSlot(s)];
      case Present => slots := slots[i := s.(presented := true)];
      case Submit(bytes, rowBytes, beyond) =>
        var done := SubmitBgra(s, bytes, rowBytes, beyond);
        match done {
          case Err(e) => r := Err(e);
          case Ok(slot) => slots := slots[i := slot];
        }
      case Upload(payload) =>
        var done := UploadRgba(s, payload);
        match done {
          case Err(e) => r := Err(e);
          case Ok(slot) => slots := slots[i := slot];
        }
      case Destroy => slots := slots[i := EmptySlot()];
    }

    /** The pixels go to a buffer of exactly the surface's size, old or new. */
    method SubmitBgra(s: Slot, bytes: Slice, rowBytes: Usize, beyond: seq<bv8>) returns (r: Result<Slot, Error>)
      ensures r == SubmitSlot(s, bytes, rowBytes, beyond)
    {
      var w, h := s.surface.width, s.surface.height;
      var rowPx := PixelPath.RowPixels(w, rowBytes);
      if |bytes| < rowPx * 4 * h % PixelPath.U64 {
        return Err(BadPayload);
      }
      if !PixelPath.Fits(bytes + beyond, w, rowPx, h) {
        return Err(Faulted);
      }
      assert w * h == h * w;
      var pixels := w * h;
      var start := if s.back.Some? && |s.back.value| == pixels then s.back.value else Blank(pixels);
      var buf := new bv32[pixels](k requires 0 <= k < pixels => start[k]);
      PixelPath.SubmitPixels(buf, bytes + beyond, w, h, rowPx);
      return Ok(s.(back := Some(buf[..]), pending := true));
    }

    method UploadRgba(s: Slot, payload: seq<bv8>) returns (r: Result<Slot, Error>)
      ensures r == UploadSlot(s, payload)
    {
      hide Words;
      var n := s.surface.width * s.surface.height;
      if |payload| != n * 4 {
        return Err(BadPayload);
      }
      if s.back.Some? {
        var back := if |s.back.value| == n then s.back.value else Blank(n);
        var filled := WriteWords(back, payload, n);
        WholeBuffer(payload, n, back);
        return Ok(s.(back := Some(filled)));
      }
      var front := if s.front.Some? then s.front.value else Blank(n);
      if |front| < n {
        return Err(Panicked);
      }
      var filled := WriteWords(front, payload, n);
      return Ok(s.(front := Some(filled), presented := true));
    }

    /** The pixel loop of an upload. */
    method WriteWords(target: Pixels, payload: seq<bv8>, n: nat) returns (r: Pixels)
      requires |payload| == n * 4 && n <= |target|
      ensures r == Words(payload, n) + target[n..]
    {
      hide PixelPath.Word;
      var buf := new bv32[|target|](k requires 0 <= k < |target| => target[k]);
      var i := 0;
      while i < n
        invariant 0 <= i <= n
        invariant forall k :: 0 <= k < |target| ==>
                    buf[k] == if k < i then PixelPath.Word(payload, k * 4) else target[k]
      {
        buf[i] := PixelPath.Word(payload, i * 4);
        i := i + 1;
      }
      return buf[..];
    }

    /** Operations of other cores, each under the lock. */
    method Perform(op: Op)
      modifies this
      ensures Now() == Apply(old(Now()), op)
    {
      hide Created, EditTable;
      match op
      case Create(caller, w, h) => var _ := CreateSurface(caller, w, h);
      case Edit(caller, id, change) => var _ := EditSurface(caller, id, change);
      case FlipPending => FlipAll();
    }

    method PerformAll(ops: seq<Op>)
      modifies this
      ensures Now() == ApplyAll(old(Now()), ops)
    {
      hide Apply;
      var i := 0;
      while i < |ops|
        invariant 0 <= i <= |ops| && Now() == ApplyAll(old(Now()), ops[..i])
      {
        Perform(ops[i]);
        i := i + 1;
        assert ops[..i][..i - 1] == ops[..i - 1];
      }
      assert ops[..i] == ops;
    }

    /** The first loop of `render_frame`. */
    method FlipAll()
      modifies this
      ensures Now() == Apply(old(Now()), FlipPending)
      ensures forall i :: 0 <= i < |slots| ==> PendingShown(old(slots)[i], slots[i])
    {
      var i := 0;
      while i < |slots|
        invariant 0 <= i <= |slots| == |old(slots)| && nextId == old(nextId)
        invariant forall k :: 0 <= k < |slots| ==> slots[k] == if k < i then Flipped(old(slots)[k]) else old(slots)[k]
      {
        slots := slots[i := Flipped(slots[i])];
        i := i + 1;
      }
    }
  }

  lemma WholeBuffer(payload: seq<bv8>, n: nat, buf: Pixels)
    requires |payload| == n * 4 && |buf| == n
    ensures Words(payload, n) + buf[n..] == Words(payload, n)
  {
  }

  lemma LocateInside(slots: seq<Slot>, caller: Caller, id: nat)
    ensures Locate(slots, caller, id).Ok? ==> Locate(slots, caller, id).value < |slots|
  {
  }
}
