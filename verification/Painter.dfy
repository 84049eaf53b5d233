/** Composing a frame: which surfaces are drawn in which order, and why the screen shows, at
    every visible pixel, the presented surface with the greatest (z, slot) there. */
module Painter {

  import opened Options
  import opened Framebuffer
  import PixelPath
  import opened SurfaceTable

  const BACKGROUND: bv32 := 0x0010_1820

  // ── The picture a frame should show ────────────────────────────────────────

  /** Presented, with a front buffer that holds all its pixels. */
  predicate Drawable(slot: Slot) {
    slot.surface.inUse && slot.presented && slot.front.Some? && |slot.front.value| >= Area(slot.surface)
  }

  predicate Within(surface: Surface, py: nat, px: nat) {
    && surface.x <= px < surface.x + surface.width
    && surface.y <= py < surface.y + surface.height
  }

  predicate Covers(slot: Slot, py: nat, px: nat) {
    Drawable(slot) && Within(slot.surface, py, px)
  }

  function ColorOf(slot: Slot, py: nat, px: nat): bv32
    requires Drawable(slot)
  {
    BrushColor(Image(slot.surface.x, slot.surface.y, slot.surface.width, slot.front.value), py, px)
  }

  predicate Below(slots: seq<Slot>, i: nat, j: nat)
    requires i < |slots| && j < |slots|
  {
    slots[i].surface.z < slots[j].surface.z || (slots[i].surface.z == slots[j].surface.z && i < j)
  }

  /** The covering slot with the greatest (z, slot) among the first `k`. */
  function Top(slots: seq<Slot>, py: nat, px: nat, k: nat): (r: Option<nat>)
    requires k <= |slots|
    ensures r.Some? ==> r.value < k && Covers(slots[r.value], py, px)
    ensures r.Some? ==> forall i :: 0 <= i < k && i != r.value && Covers(slots[i], py, px) ==> Below(slots, i, r.value)
    ensures r.None? ==> forall i :: 0 <= i < k ==> !Covers(slots[i], py, px)
  {
    if k == 0 then None
    else
      var best := Top(slots, py, px, k - 1);
      if Covers(slots[k - 1], py, px) && (best.Some? ==> Below(slots, best.value, k - 1)) then Some(k - 1) else best
  }

  /** The picture: the topmost covering surface's pixel, else the background. */
  function Picture(slots: seq<Slot>, py: nat, px: nat): bv32 {
    match Top(slots, py, px, |slots|)
    case None => 0x0010_1820
    case Some(i) => ColorOf(slots[i], py, px)
  }

  // ── Drawing order ──────────────────────────────────────────────────────────

  ghost predicate InTable(slots: seq<Slot>, order: seq<nat>) {
    forall a :: 0 <= a < |order| ==> order[a] < |slots|
  }

  ghost predicate Ascending(slots: seq<Slot>, order: seq<nat>)
    requires InTable(slots, order)
  {
    forall a, b :: 0 <= a < b < |order| ==> Below(slots, order[a], order[b])
  }

  /** Every live slot, once, lowest first. */
  ghost predicate IsDrawOrder(slots: seq<Slot>, order: seq<nat>) {
    && InTable(slots, order) && Ascending(slots, order)
    && forall i: nat :: i in order <==> i < |slots| && slots[i].surface.inUse
  }

  function Spliced(p: seq<nat>, j: nat, key: nat): seq<nat>
    requires j <= |p|
  {
    p[..j] + [key] + p[j..]
  }

  /** Where a key goes: after everything not above it, before everything above it. */
  ghost predicate Fits(slots: seq<Slot>, p: seq<nat>, j: nat, key: nat)
    requires InTable(slots, p) && key < |slots|
  {
    && j <= |p|
    && (forall a :: j <= a < |p| ==> slots[p[a]].surface.z > slots[key].surface.z)
    && (j > 0 ==> slots[p[j - 1]].surface.z <= slots[key].surface.z)
  }

  lemma InsertedPair(slots: seq<Slot>, p: seq<nat>, j: nat, key: nat, a: nat, b: nat)
    requires InTable(slots, p) && key < |slots| && Ascending(slots, p) && Fits(slots, p, j, key)
    requires (forall a :: 0 <= a < |p| ==> p[a] < key) && a < b <= |p|
    ensures var r := Spliced(p, j, key);
            r[a] < |slots| && r[b] < |slots| && Below(slots, r[a], r[b])
  {
  }

  lemma Inserted(slots: seq<Slot>, p: seq<nat>, j: nat, key: nat)
    requires InTable(slots, p) && key < |slots| && Ascending(slots, p) && Fits(slots, p, j, key)
    requires j <= |p| && forall a :: 0 <= a < |p| ==> p[a] < key
    ensures InTable(slots, Spliced(p, j, key)) && Ascending(slots, Spliced(p, j, key))
  {
    hide Below, Fits;
    var r := Spliced(p, j, key);
    forall a, b | 0 <= a < b < |r| ensures r[a] < |slots| && r[b] < |slots| && Below(slots, r[a], r[b]) {
      InsertedPair(slots, p, j, key, a, b);
    }
  }

  lemma InsertedMembers(p: seq<nat>, j: nat, key: nat, i: nat)
    requires j <= |p|
    ensures i in Spliced(p, j, key) <==> i in p || i == key
  {
  }

  predicate Higher(slots: seq<Slot>, i: nat, key: nat)
    requires i < |slots| && key < |slots|
  {
    slots[i].surface.z > slots[key].surface.z
  }

  /** Where the shifting stops when it starts at `j`. */
  function Landing(slots: seq<Slot>, p: seq<nat>, key: nat, j: nat): (r: nat)
    requires InTable(slots, p) && key < |slots| && j <= |p|
    ensures r <= j && (r > 0 ==> !Higher(slots, p[r - 1], key))
    ensures forall a :: r <= a < j ==> Higher(slots, p[a], key)
  {
    if j > 0 && Higher(slots, p[j - 1], key) then Landing(slots, p, key, j - 1) else j
  }

  /** The array while the gap is at `j`: entries from `j` to `i` have moved up by one. */
  function Shifted(was: seq<nat>, i: nat, j: nat): seq<nat>
    requires j <= i < |was|
  {
    was[..j + 1] + was[j..i] + was[i + 1..]
  }

  lemma ShiftStep(was: seq<nat>, i: nat, j: nat)
    requires 0 < j <= i < |was|
    ensures var s := Shifted(was, i, j); s[j - 1] == was[j - 1] && s[j := s[j - 1]] == Shifted(was, i, j - 1)
  {
  }

  lemma ShiftEnd(was: seq<nat>, i: nat, j: nat)
    requires j <= i < |was|
    ensures var s := Shifted(was, i, j)[j := was[i]];
            s[..i + 1] == Spliced(was[..i], j, was[i]) && s[i + 1..] == was[i + 1..]
  {
  }

  /** One round of the insertion sort: shifts the higher surfaces up and drops the key in. */
  method InsertAt(slots: seq<Slot>, order: array<nat>, i: nat) returns (j: nat)
    requires i < order.Length && order[i] < |slots| && InTable(slots, order[..i])
    modifies order
    ensures j <= i && Fits(slots, old(order[..i]), j, old(order[i]))
    ensures order[..i + 1] == Spliced(old(order[..i]), j, old(order[i]))
    ensures order[i + 1..] == old(order[i + 1..])
  {
    hide Higher, Fits, Landing, Shifted, Spliced;
    ghost var was := order[..];
    ghost var p := was[..i];
    var key := order[i];
    j := i;
    ShiftNone(was, i);
    while j > 0 && Higher(slots, order[j - 1], key)
      invariant 0 <= j <= i && order[..] == Shifted(was, i, j)
      invariant j > 0 ==> order[j - 1] == p[j - 1] < |slots|
      invariant Landing(slots, p, key, i) == Landing(slots, p, key, j)
    {
      LandingLower(slots, p, key, j);
      ShiftStep(was, i, j);
      order[j] := order[j - 1];
      j := j - 1;
      if j > 0 { ShiftStep(was, i, j); }
    }
    order[j] := key;
    ShiftEnd(was, i, j);
    LandingHere(slots, p, key, j);
    LandingFits(slots, p, key);
  }

  lemma ShiftNone(was: seq<nat>, i: nat)
    requires i < |was|
    ensures Shifted(was, i, i) == was
  {
  }

  lemma LandingLower(slots: seq<Slot>, p: seq<nat>, key: nat, j: nat)
    requires InTable(slots, p) && key < |slots| && 0 < j <= |p| && Higher(slots, p[j - 1], key)
    ensures Landing(slots, p, key, j) == Landing(slots, p, key, j - 1)
  {
  }

  lemma LandingHere(slots: seq<Slot>, p: seq<nat>, key: nat, j: nat)
    requires InTable(slots, p) && key < |slots| && j <= |p| && (j > 0 ==> !Higher(slots, p[j - 1], key))
    ensures Landing(slots, p, key, j) == j
  {
  }

  lemma LandingFits(slots: seq<Slot>, p: seq<nat>, key: nat)
    requires InTable(slots, p) && key < |slots|
    ensures Fits(slots, p, Landing(slots, p, key, |p|), key)
  {
    hide Landing;
  }

  /** The live slots below `k`, in slot order. */
  function Live(slots: seq<Slot>, k: nat): (r: seq<nat>)
    requires k <= |slots|
    ensures |r| <= k && forall a :: 0 <= a < |r| ==> r[a] < k
    ensures forall a, b :: 0 <= a < b < |r| ==> r[a] < r[b]
    ensures forall i: nat :: i in r <==> i < k && slots[i].surface.inUse
  {
    if k == 0 then [] else Live(slots, k - 1) + if slots[k - 1].surface.inUse then [k - 1] else []
  }

  method CollectLive(slots: seq<Slot>) returns (order: array<nat>, count: nat)
    ensures fresh(order) && count <= order.Length && order[..count] == Live(slots, |slots|)
  {
    order := new nat[|slots|];
    count := 0;
    var idx := 0;
    while idx < |slots|
      invariant 0 <= count <= idx <= |slots| && order[..count] == Live(slots, idx)
    {
      if slots[idx].surface.inUse {
        order[count] := idx;
        count := count + 1;
        assert order[..count] == order[..count - 1] + [idx];
      }
      idx := idx + 1;
    }
  }

  /** Insertion sort by z: stable, so equal depths keep slot order. */
  method DrawOrder(slots: seq<Slot>) returns (r: seq<nat>)
    ensures IsDrawOrder(slots, r)
  {
    hide Below, Fits, Spliced, Live;
    var order, count := CollectLive(slots);
    ghost var first := order[..count];
    var i := if count == 0 then 0 else 1;
    while i < count
      invariant 0 <= i <= count && (count > 0 ==> i > 0)
      invariant InTable(slots, order[..i]) && Ascending(slots, order[..i])
      invariant order[i..count] == first[i..]
      invariant SameMembers(order[..i], first[..i])
    {
      i := SortRound(slots, order, count, first, i);
    }
    assert first[..count] == first;
    return order[..count];
  }

  ghost predicate SameMembers(p: seq<nat>, q: seq<nat>) {
    forall s: nat :: s in p <==> s in q
  }

  method SortRound(slots: seq<Slot>, order: array<nat>, count: nat, ghost first: seq<nat>, i: nat) returns (next: nat)
    requires i < count <= order.Length && |first| == count && InTable(slots, first)
    requires forall a, b :: 0 <= a < b < count ==> first[a] < first[b]
    requires order[i..count] == first[i..]
    requires InTable(slots, order[..i]) && Ascending(slots, order[..i]) && SameMembers(order[..i], first[..i])
    modifies order
    ensures next == i + 1
    ensures InTable(slots, order[..next]) && Ascending(slots, order[..next])
    ensures order[next..count] == first[next..]
    ensures SameMembers(order[..next], first[..next])
  {
    hide Below, Fits, Spliced, Ascending;
    ghost var p, key := order[..i], order[i];
    assert key == order[i..count][0] && order[i + 1..count] == order[i..count][1..];
    assert forall a :: 0 <= a < i ==> p[a] in first[..i];
    ghost var tail := order[i + 1..];
    var j := InsertAt(slots, order, i);
    assert order[i + 1..count] == tail[..count - i - 1];
    Inserted(slots, p, j, key);
    assert first[..i + 1] == first[..i] + [key];
    ghost var q, f := order[..i + 1], first[..i + 1];
    forall s: nat ensures s in q <==> s in f {
      InsertedMembers(p, j, key, s);
    }
    next := i + 1;
  }

  // ── Drawing ────────────────────────────────────────────────────────────────

  predicate Visible(g: Geometry, py: nat, px: nat) {
    py < g.height && px < g.width
  }

  /** A cell after the first `k` surfaces of the order were drawn over `base`. */
  function Cell(slots: seq<Slot>, order: seq<nat>, k: nat, py: nat, px: nat, base: bv32, pack: bool, f: Format): bv32
    requires IsFormat(f) && k <= |order| && forall a :: 0 <= a < |order| ==> order[a] < |slots|
  {
    if k == 0 then base
    else if Covers(slots[order[k - 1]], py, px) then Ink(f, pack, ColorOf(slots[order[k - 1]], py, px))
    else Cell(slots, order, k - 1, py, px, base, pack, f)
  }

  ghost predicate Layered(g: Geometry, base: seq<bv32>, cells: seq<bv32>, slots: seq<Slot>, order: seq<nat>,
                          k: nat, pack: bool, f: Format)
    requires IsFormat(f) && k <= |order| && InTable(slots, order)
  {
    && |base| == |cells| == g.height * g.pitch
    && forall py: nat, px: nat {:trigger At(g, py, px)} :: Visible(g, py, px) ==>
         At(g, py, px) < |cells| &&
         cells[At(g, py, px)] == Cell(slots, order, k, py, px, base[At(g, py, px)], pack, f)
  }

  lemma NothingDrawn(g: Geometry, cells: seq<bv32>, slots: seq<Slot>, order: seq<nat>, pack: bool, f: Format)
    requires IsGeometry(g) && IsFormat(f) && InTable(slots, order) && |cells| == g.height * g.pitch
    ensures Layered(g, cells, cells, slots, order, 0, pack, f)
  {
    hide At;
    forall py: nat, px: nat | Visible(g, py, px) ensures At(g, py, px) < |cells| {
      AtBound(g, py, px);
    }
  }

  /** Drawing the next surface, or skipping it, is one more layer. */
  lemma NextLayer(g: Geometry, base: seq<bv32>, before: seq<bv32>, after: seq<bv32>, slots: seq<Slot>,
                  order: seq<nat>, k: nat, pack: bool, f: Format)
    requires IsGeometry(g) && IsFormat(f) && k < |order| && InTable(slots, order)
    requires Layered(g, base, before, slots, order, k, pack, f)
    requires var slot := slots[order[k]];
             var r := slot.surface;
             if Drawable(slot) then
               && r.width <= I32_MAX && r.height <= I32_MAX
               && Painted(g, before, after, Clamp(r.x, g.width), ClipEnd(r.x, r.width, g.width),
                          Clamp(r.y, g.height), ClipEnd(r.y, r.height, g.height),
                          Image(r.x, r.y, r.width, slot.front.value), pack, f)
             else after == before
    ensures Layered(g, base, after, slots, order, k + 1, pack, f)
  {
    hide At, Ink, BrushColor, Drawable, IsFormat;
    var slot := slots[order[k]];
    forall py: nat, px: nat | Visible(g, py, px)
      ensures At(g, py, px) < |after| &&
              after[At(g, py, px)] == Cell(slots, order, k + 1, py, px, base[At(g, py, px)], pack, f)
    {
      if Drawable(slot) {
        ClipIsIntersection(slot.surface.x, slot.surface.width, g.width, px);
        ClipIsIntersection(slot.surface.y, slot.surface.height, g.height, py);
        assert OnScreen(g, py, px);
      }
    }
  }

  lemma AcceptedSize(slot: Slot)
    requires CleanSlot(slot) && slot.surface.inUse
    ensures slot.surface.width <= I32_MAX && slot.surface.height <= I32_MAX
  {
    SidesWithin(slot.surface.width, slot.surface.height);
  }

  lemma SidesWithin(w: nat, h: nat)
    requires SizeError(w, h).None?
    ensures w <= MAX_PIXELS && h <= MAX_PIXELS
  {
    assert w * h == w * (h - 1) + w && w * h == (w - 1) * h + h;
  }

  /** The draw loop of a frame. */
  method PaintSurfaces(s: Screen, slots: seq<Slot>, order: seq<nat>)
    requires s.Valid() && Clean(slots) && InTable(slots, order)
    modifies s.Target()
    ensures s.Valid()
    ensures Layered(s.g, old(s.Target()[..]), s.Target()[..], slots, order, |order|, !s.Buffered(), s.f)
  {
    hide At, Ink, Layered, Painted, IsFormat, CleanSlot, Area;
    ghost var base := s.Target()[..];
    NothingDrawn(s.g, base, slots, order, !s.Buffered(), s.f);
    var k := 0;
    while k < |order|
      invariant 0 <= k <= |order| && s.Valid()
      invariant Layered(s.g, base, s.Target()[..], slots, order, k, !s.Buffered(), s.f)
    {
      PaintOne(s, slots, order, k, base);
      k := k + 1;
    }
  }

  method PaintOne(s: Screen, slots: seq<Slot>, order: seq<nat>, k: nat, ghost base: seq<bv32>)
    requires s.Valid() && Clean(slots) && InTable(slots, order) && k < |order|
    requires Layered(s.g, base, s.Target()[..], slots, order, k, !s.Buffered(), s.f)
    modifies s.Target()
    ensures s.Valid()
    ensures Layered(s.g, base, s.Target()[..], slots, order, k + 1, !s.Buffered(), s.f)
  {
    hide At, Ink, Layered, Painted, IsFormat, CleanSlot;
    var slot := slots[order[k]];
    ghost var before := s.Target()[..];
    if slot.surface.inUse && slot.presented && slot.front.Some? {
      AcceptedSize(slot);
      s.Blit(slot.surface.x, slot.surface.y, slot.surface.width, slot.surface.height, slot.front.value);
    }
    NextLayer(s.g, base, before, s.Target()[..], slots, order, k, !s.Buffered(), s.f);
  }

  // ── The last covering layer is the topmost surface ─────────────────────────

  lemma {:induction false} CellAbove(slots: seq<Slot>, order: seq<nat>, a: nat, k: nat, py: nat, px: nat,
                                     base: bv32, pack: bool, f: Format)
    requires IsFormat(f) && a <= k <= |order| && InTable(slots, order)
    requires forall b :: a <= b < k ==> !Covers(slots[order[b]], py, px)
    ensures Cell(slots, order, k, py, px, base, pack, f) == Cell(slots, order, a, py, px, base, pack, f)
  {
    hide Covers, Ink;
    if k > a {
      CellAbove(slots, order, a, k - 1, py, px, base, pack, f);
    }
  }

  /** Over the whole order the cell shows the topmost covering surface, else what was there. */
  lemma CellShowsTop(slots: seq<Slot>, order: seq<nat>, py: nat, px: nat, base: bv32, pack: bool, f: Format)
    requires IsFormat(f) && IsDrawOrder(slots, order)
    ensures Cell(slots, order, |order|, py, px, base, pack, f) ==
            match Top(slots, py, px, |slots|)
            case None => base
            case Some(i) => Ink(f, pack, ColorOf(slots[i], py, px))
  {
    hide Ink, IsFormat, BrushColor;
    match Top(slots, py, px, |slots|)
    case None =>
      CellAbove(slots, order, 0, |order|, py, px, base, pack, f);
    case Some(i) =>
      assert i in order;
      var a :| 0 <= a < |order| && order[a] == i;
      forall b | a < b < |order| ensures !Covers(slots[order[b]], py, px) {
        assert Below(slots, i, order[b]);
      }
      CellAbove(slots, order, a + 1, |order|, py, px, base, pack, f);
  }

  // ── Skipping the clear ─────────────────────────────────────────────────────

  predicate Spans(slot: Slot, g: Geometry) {
    && slot.surface.inUse && slot.presented && slot.surface.x <= 0 && slot.surface.y <= 0
    && slot.surface.x + slot.surface.width >= g.width && slot.surface.y + slot.surface.height >= g.height
  }

  /** A presented surface spans the screen exactly when its rectangle holds every visible pixel. */
  lemma SpansEveryPixel(slot: Slot, g: Geometry)
    requires IsGeometry(g) && slot.surface.inUse && slot.presented
    ensures var s := slot.surface;
            Spans(slot, g) <==> forall py: nat, px: nat :: Visible(g, py, px) ==>
                                  s.x <= px < s.x + s.width && s.y <= py < s.y + s.height
    ensures !Spans(slot.(presented := false), g) && !Spans(slot.(surface := slot.surface.(inUse := false)), g)
  {
    if !Spans(slot, g) {
      assert Visible(g, 0, 0) && Visible(g, g.height - 1, g.width - 1);
    }
  }

  method AnySpans(slots: seq<Slot>, g: Geometry) returns (covered: bool)
    ensures covered <==> exists i :: 0 <= i < |slots| && Spans(slots[i], g)
  {
    var i := 0;
    while i < |slots|
      invariant 0 <= i <= |slots|
      invariant forall k :: 0 <= k < i ==> !Spans(slots[k], g)
    {
      if Spans(slots[i], g) {
        return true;
      }
      i := i + 1;
    }
    return false;
  }

  /** Every presented surface has a buffer for its whole area. */
  ghost predicate Sufficient(slots: seq<Slot>) {
    forall i :: 0 <= i < |slots| && slots[i].surface.inUse && slots[i].presented ==> Drawable(slots[i])
  }

  /** When the clear is skipped no visible pixel is left to it. */
  lemma ClearNotNeeded(slots: seq<Slot>, g: Geometry, i: nat, py: nat, px: nat)
    requires Sufficient(slots) && i < |slots| && Spans(slots[i], g) && Visible(g, py, px)
    ensures Top(slots, py, px, |slots|).Some?
  {
    hide Drawable;
    assert Covers(slots[i], py, px);
  }

  /** In every run without a geometry change to a larger area, every frame has what it needs:
      after its flips each presented surface can be drawn whole. */
  lemma RunsAreSufficient(tables: seq<Table>, ops: seq<Op>, k: nat)
    requires IsRun(tables, ops) && k < |tables| && forall j :: 0 <= j < k ==> !Grows(tables[j], ops[j])
    ensures Clean(tables[k].slots) && Sufficient(FlippedAll(tables[k].slots))
  {
    hide Grows, Apply, Area;
    AlwaysClean(tables, ops, k);
    AlwaysRoomy(tables, ops, k);
  }

  predicate HasContent(slots: seq<Slot>) {
    exists i :: 0 <= i < |slots| && slots[i].surface.inUse && slots[i].presented && slots[i].front.Some?
  }

  method VisibleContent(slots: seq<Slot>) returns (any: bool)
    ensures any == HasContent(slots)
  {
    var i := 0;
    while i < |slots|
      invariant 0 <= i <= |slots|
      invariant forall k :: 0 <= k < i ==> !(slots[k].surface.inUse && slots[k].presented && slots[k].front.Some?)
    {
      if slots[i].surface.inUse && slots[i].presented && slots[i].front.Some? {
        return true;
      }
      i := i + 1;
    }
    return false;
  }

  // ── A frame ────────────────────────────────────────────────────────────────

  ghost predicate Cleared(slots: seq<Slot>, g: Geometry, bypass: bool) {
    !bypass && forall i :: 0 <= i < |slots| ==> !Spans(slots[i], g)
  }

  /** What the drawing surface holds when all surfaces are drawn: the topmost surface, else
      the background if the screen was cleared, else whatever it held before. */
  ghost predicate Composed(g: Geometry, was: seq<bv32>, cells: seq<bv32>, slots: seq<Slot>, cleared: bool,
                           pack: bool, f: Format)
    requires IsFormat(f)
  {
    && |was| == |cells| == g.height * g.pitch
    && forall py: nat, px: nat {:trigger At(g, py, px)} :: Visible(g, py, px) ==>
         At(g, py, px) < |cells| &&
         cells[At(g, py, px)] ==
           match Top(slots, py, px, |slots|)
           case Some(i) => Ink(f, pack, ColorOf(slots[i], py, px))
           case None => if cleared then Ink(f, pack, BACKGROUND) else was[At(g, py, px)]
  }

  lemma ComposedFrom(g: Geometry, was: seq<bv32>, base: seq<bv32>, cells: seq<bv32>, slots: seq<Slot>,
                     order: seq<nat>, cleared: bool, pack: bool, f: Format)
    requires IsGeometry(g) && IsFormat(f) && IsDrawOrder(slots, order)
    requires Layered(g, base, cells, slots, order, |order|, pack, f)
    requires if cleared then Painted(g, was, base, 0, g.width, 0, g.height, Solid(BACKGROUND), pack, f)
             else was == base
    ensures Composed(g, was, cells, slots, cleared, pack, f)
  {
    hide At, Ink, Cell, Top, IsDrawOrder, ColorOf, IsFormat;
    forall py: nat, px: nat | Visible(g, py, px)
      ensures At(g, py, px) < |cells| &&
              cells[At(g, py, px)] ==
                match Top(slots, py, px, |slots|)
                case Some(i) => Ink(f, pack, ColorOf(slots[i], py, px))
                case None => if cleared then Ink(f, pack, BACKGROUND) else was[At(g, py, px)]
    {
      assert OnScreen(g, py, px);
      CellShowsTop(slots, order, py, px, base[At(g, py, px)], pack, f);
    }
  }

  /** The clear, unless it is bypassed or some surface spans the screen. */
  method ClearUncovered(s: Screen, slots: seq<Slot>, bypass: bool)
    requires s.Valid()
    modifies s.Target()
    ensures s.Valid()
    ensures if Cleared(slots, s.g, bypass)
            then Painted(s.g, old(s.Target()[..]), s.Target()[..], 0, s.g.width, 0, s.g.height,
                         Solid(BACKGROUND), !s.Buffered(), s.f)
            else s.Target()[..] == old(s.Target()[..])
  {
    hide At, Ink, Painted, IsFormat, Spans;
    if !bypass {
      var covered := AnySpans(slots, s.g);
      if !covered {
        WholeScreen(s.g);
        s.FillRect(0, 0, s.g.width, s.g.height, BACKGROUND);
      }
    }
  }

  method DrawAll(s: Screen, slots: seq<Slot>, ghost was: seq<bv32>, ghost cleared: bool)
    requires s.Valid() && Clean(slots)
    requires if cleared
             then Painted(s.g, was, s.Target()[..], 0, s.g.width, 0, s.g.height,
                          Solid(BACKGROUND), !s.Buffered(), s.f)
             else s.Target()[..] == was
    modifies s.Target()
    ensures s.Valid()
    ensures Composed(s.g, was, s.Target()[..], slots, cleared, !s.Buffered(), s.f)
  {
    hide At, Ink, Layered, Painted, Composed, IsFormat, Clean, IsDrawOrder;
    ghost var base := s.Target()[..];
    var order := DrawOrder(slots);
    OrderInTable(slots, order);
    PaintSurfaces(s, slots, order);
    ComposedFrom(s.g, was, base, s.Target()[..], slots, order, cleared, !s.Buffered(), s.f);
  }

  lemma OrderInTable(slots: seq<Slot>, order: seq<nat>)
    requires IsDrawOrder(slots, order)
    ensures InTable(slots, order)
  {
  }

  lemma WholeScreen(g: Geometry)
    requires IsGeometry(g)
    ensures Clamp(0, g.width) == 0 == Clamp(0, g.height)
    ensures ClipEnd(0, g.width, g.width) == g.width && ClipEnd(0, g.height, g.height) == g.height
  {
  }

  /** The panel shows the painter's picture at every visible pixel. */
  ghost predicate ShowsPicture(s: Screen, slots: seq<Slot>)
    requires IsFormat(s.f)
    reads s.panel
  {
    && s.panel.Length == s.g.height * s.g.pitch
    && forall py: nat, px: nat {:trigger At(s.g, py, px)} :: Visible(s.g, py, px) ==>
         At(s.g, py, px) < s.panel.Length &&
         s.panel[At(s.g, py, px)] == Pack(s.f, Picture(slots, py, px))
  }

  /** A cell of the drawing surface as the panel shows it. */
  function Shown(f: Format, pack: bool, cell: bv32): bv32
    requires IsFormat(f)
  {
    Ink(f, !pack, cell)
  }

  /** A pixel shows the picture exactly when some drawable surface covers it, or the screen was
      cleared, or the pixel showed the background already. */
  ghost predicate PixelRight(slots: seq<Slot>, py: nat, px: nat, cleared: bool, f: Format, before: bv32, after: bv32)
    requires IsFormat(f)
  {
    after == Pack(f, Picture(slots, py, px)) <==>
      Top(slots, py, px, |slots|).Some? || cleared || before == Pack(f, BACKGROUND)
  }

  lemma FramePixel(g: Geometry, f: Format, was: seq<bv32>, cells: seq<bv32>, slots: seq<Slot>, cleared: bool,
                   pack: bool, py: nat, px: nat)
    requires IsFormat(f) && Visible(g, py, px) && Composed(g, was, cells, slots, cleared, pack, f)
    ensures At(g, py, px) < |cells|
    ensures PixelRight(slots, py, px, cleared, f, Shown(f, pack, was[At(g, py, px)]), Shown(f, pack, cells[At(g, py, px)]))
    ensures Top(slots, py, px, |slots|).None? && !cleared ==> cells[At(g, py, px)] == was[At(g, py, px)]
  {
    hide At, Top, ColorOf, Pack, IsFormat;
  }

  /** The panel after a frame, pixel by pixel, against what it would have shown before. */
  ghost predicate FrameRight(s: Screen, was: seq<bv32>, slots: seq<Slot>, cleared: bool)
    requires IsFormat(s.f)
    reads s, s.panel
  {
    && s.panel.Length == |was| == s.g.height * s.g.pitch
    && forall py: nat, px: nat {:trigger At(s.g, py, px)} :: Visible(s.g, py, px) ==>
         At(s.g, py, px) < s.panel.Length &&
         PixelRight(slots, py, px, cleared, s.f, Shown(s.f, !s.Buffered(), was[At(s.g, py, px)]),
                    s.panel[At(s.g, py, px)])
  }

  /** With sufficient buffers a frame that cleared, or over which a surface still spans the
      screen, shows the picture everywhere. */
  lemma RightIsPicture(s: Screen, was: seq<bv32>, slots: seq<Slot>, cleared: bool)
    requires IsFormat(s.f) && FrameRight(s, was, slots, cleared) && Sufficient(slots)
    requires cleared || exists i :: 0 <= i < |slots| && Spans(slots[i], s.g)
    ensures ShowsPicture(s, slots)
  {
    hide At, Shown, Pack, Picture, Sufficient, Spans, IsFormat, Top;
    forall py: nat, px: nat | Visible(s.g, py, px)
      ensures At(s.g, py, px) < s.panel.Length && s.panel[At(s.g, py, px)] == Pack(s.f, Picture(slots, py, px))
    {
      if !cleared {
        var i :| 0 <= i < |slots| && Spans(slots[i], s.g);
        ClearNotNeeded(slots, s.g, i, py, px);
      }
    }
  }

  /** A whole frame, in its three sections under the table's lock: submitted buffers come to the
      front; the table is tested for a surface that spans the screen, and the screen cleared if
      none does; the surfaces are drawn. Other cores change the table in between, by `first` and
      `second`. Every pixel then shows the picture of the table drawn, unless nothing covers it
      and the earlier table had suppressed the clear. */
  method RenderFrame(c: Compositor, s: Screen, bypass: bool, first: seq<Op>, second: seq<Op>) returns (drawn: bool)
    requires s.Valid() && Clean(c.slots) && Limited(c.slots)
    modifies c, s.panel, s.Target()
    ensures var shown := FlippedAll(old(c.slots));
            s.Valid() && (drawn <==> exists i :: && 0 <= i < |shown| && shown[i].surface.inUse
                                                 && shown[i].presented && shown[i].front.Some?)
    ensures var flipped := Apply(old(c.Now()), FlipPending);
            var tested := ApplyAll(flipped, first);
            if !drawn then c.Now() == flipped && s.panel[..] == old(s.panel[..])
            else
              var cleared := Cleared(tested.slots, s.g, bypass);
              && c.Now() == ApplyAll(tested, second)
              && FrameRight(s, old(s.Target()[..]), c.slots, cleared)
              && (Sufficient(c.slots) && (cleared || exists i :: 0 <= i < |c.slots| && Spans(c.slots[i], s.g)) ==>
                    ShowsPicture(s, c.slots))
  {
    hide At, Composed, IsFormat, Clean, Limited, Sufficient, Cleared, ApplyAll, FrameRight, ShowsPicture,
         Spans, FlippedAll;
    ghost var was := s.Target()[..];
    ApplyClean(c.Now(), FlipPending);
    c.FlipAll();
    drawn := VisibleContent(c.slots);
    if !drawn {
      return;
    }
    ApplyAllClean(c.Now(), first);
    c.PerformAll(first);
    ghost var cleared := Cleared(c.slots, s.g, bypass);
    ClearUncovered(s, c.slots, bypass);
    ApplyAllClean(c.Now(), second);
    c.PerformAll(second);
    DrawAll(s, c.slots, was, cleared);
    CopyOut(s, was, c.slots, cleared);
    if Sufficient(c.slots) && (cleared || exists i :: 0 <= i < |c.slots| && Spans(c.slots[i], s.g)) {
      RightIsPicture(s, was, c.slots, cleared);
    }
  }

  /** The copy to the panel at the end of a frame. */
  method CopyOut(s: Screen, ghost was: seq<bv32>, ghost slots: seq<Slot>, ghost cleared: bool)
    requires s.Valid() && Composed(s.g, was, s.Target()[..], slots, cleared, !s.Buffered(), s.f)
    modifies s.panel
    ensures s.Valid() && FrameRight(s, was, slots, cleared)
  {
    hide At, Pack, Composed, IsFormat, PixelRight;
    ghost var cells := s.Target()[..];
    s.SwapBuffers();
    assert |cells| == |was| == s.g.height * s.g.pitch by { ComposedSize(s.g, was, cells, slots, cleared, !s.Buffered(), s.f); }
    forall py: nat, px: nat | Visible(s.g, py, px)
      ensures At(s.g, py, px) < s.panel.Length &&
              PixelRight(slots, py, px, cleared, s.f, Shown(s.f, !s.Buffered(), was[At(s.g, py, px)]),
                         s.panel[At(s.g, py, px)])
    {
      FramePixel(s.g, s.f, was, cells, slots, cleared, !s.Buffered(), py, px);
    }
  }

  lemma ComposedSize(g: Geometry, was: seq<bv32>, cells: seq<bv32>, slots: seq<Slot>, cleared: bool, pack: bool, f: Format)
    requires IsFormat(f) && Composed(g, was, cells, slots, cleared, pack, f)
    ensures |was| == |cells| == g.height * g.pitch
  {
  }

  // ── From the payload to the panel ──────────────────────────────────────────

  lemma SubmittedBytes(b0: bv8, b1: bv8, b2: bv8, b3: bv8)
    ensures var px := PixelPath.SwapRedBlue(PixelPath.Little(b0, b1, b2, b3));
            Byte(px, 0) == b2 as bv32 && Byte(px, 8) == b1 as bv32 && Byte(px, 16) == b0 as bv32
  {
  }

  /** The payload byte of a surface's pixel: blue first, then green, red and alpha. */
  function Offset(surface: Surface, rowPx: nat, py: nat, px: nat): (r: nat)
    requires Within(surface, py, px)
  {
    PixelPath.Place(rowPx, py - surface.y, px - surface.x)
  }

  ghost predicate Submits(slot: Slot, bytes: seq<bv8>, rowPx: nat) {
    var w, h := slot.surface.width, slot.surface.height;
    && PixelPath.Fits(bytes, w, rowPx, h)
    && slot.front == Some(PixelPath.OnePass(bytes, w, rowPx, h, h))
  }

  /** The colour drawn for a submitted surface is its own pixel's. */
  lemma ColorIsSubmitted(slot: Slot, bytes: seq<bv8>, rowPx: nat, py: nat, px: nat)
    requires Covers(slot, py, px) && Submits(slot, bytes, rowPx)
    ensures var w, h := slot.surface.width, slot.surface.height;
            ColorOf(slot, py, px) ==
            ToXrgb(PixelPath.Submitted(bytes, w, rowPx, h, py - slot.surface.y, px - slot.surface.x))
  {
    hide PixelPath.OnePass, PixelPath.Submitted, PixelPath.Place, PixelPath.Fits, ToXrgb;
    var w, h := slot.surface.width, slot.surface.height;
    PixelPath.OnePassAt(bytes, w, rowPx, h, h, py - slot.surface.y, px - slot.surface.x);
  }

  /** So it carries the payload's bytes. */
  lemma ColorFromPayload(slot: Slot, bytes: seq<bv8>, rowPx: nat, f: Format, py: nat, px: nat)
    requires IsFormat(f) && Covers(slot, py, px) && Submits(slot, bytes, rowPx)
    ensures var at := Offset(slot.surface, rowPx, py, px);
            var word := Pack(f, ColorOf(slot, py, px));
            && at + 4 <= |bytes| && Byte(word, f.r) == bytes[at + 2] as bv32
            && Byte(word, f.g) == bytes[at + 1] as bv32 && Byte(word, f.b) == bytes[at] as bv32
  {
    hide PixelPath.OnePass, PixelPath.SwapRedBlue, PixelPath.Little, PixelPath.Place, Byte, ToXrgb, Pack, IsFormat,
         ColorOf, Drawable;
    var w, h := slot.surface.width, slot.surface.height;
    var y, x := py - slot.surface.y, px - slot.surface.x;
    var at := PixelPath.Place(rowPx, y, x);
    ColorIsSubmitted(slot, bytes, rowPx, py, px);
    SubmittedBytes(bytes[at], bytes[at + 1], bytes[at + 2], bytes[at + 3]);
    BlitShowsSource(f, PixelPath.Submitted(bytes, w, rowPx, h, y, x));
  }

  /** From the system call to the panel: once an accepted submit was rendered and the panel shows
      the picture, each of the surface's pixels that is topmost carries, at the panel's own channel
      positions, the red, green and blue bytes its place has in the payload. */
  lemma PayloadOnPanel(s: Screen, t: Table, caller: Caller, id: nat, bytes: Slice, rowBytes: Usize, beyond: seq<bv8>,
                       py: nat, px: nat)
    requires EditTable(t, caller, id, Submit(bytes, rowBytes, beyond)).1.Ok? && IsFormat(s.f) && Visible(s.g, py, px)
    requires var (t', r) := EditTable(t, caller, id, Submit(bytes, rowBytes, beyond));
             var slots := FlippedAll(t'.slots);
             ShowsPicture(s, slots) && Top(slots, py, px, |slots|) == Some(r.value)
    ensures var (t', r) := EditTable(t, caller, id, Submit(bytes, rowBytes, beyond));
            var surface := t.slots[r.value].surface;
            && Has(t.slots[r.value], id) && Within(surface, py, px) && At(s.g, py, px) < s.panel.Length
            && var rowPx := if rowBytes == 0 then surface.width else rowBytes / 4;
            var at := ((py - surface.y) * rowPx + (px - surface.x)) * 4 % 0x1_0000_0000_0000_0000;
            var word := s.panel[At(s.g, py, px)];
            && at + 4 <= |bytes + beyond| && Byte(word, s.f.r) == (bytes + beyond)[at + 2] as bv32
            && Byte(word, s.f.g) == (bytes + beyond)[at + 1] as bv32 && Byte(word, s.f.b) == (bytes + beyond)[at] as bv32
  {
    hide EditTable, FlippedAll, PixelPath.OnePass, Byte, Pack, IsFormat, At, PixelPath.Fits;
    SubmitThenRender(t, caller, id, bytes, rowBytes, beyond);
    var (t', r) := EditTable(t, caller, id, Submit(bytes, rowBytes, beyond));
    var slots := FlippedAll(t'.slots);
    var slot := slots[r.value];
    ColorFromPayload(slot, bytes + beyond, PixelPath.RowPixels(slot.surface.width, rowBytes), s.f, py, px);
  }

  // ── Frames that show what was there before ─────────────────────────────────

  /** The table tested suppresses the clear of a screen the table drawn leaves bare. */
  ghost predicate Stale(tested: seq<Slot>, drawn: seq<Slot>, g: Geometry) {
    !Cleared(tested, g, false) && forall py: nat, px: nat :: Top(drawn, py, px, |drawn|).None?
  }

  /** Such a frame shows what the screen held before: the wrong pixel wherever that was not the
      background. */
  lemma StaleIsWrong(tested: seq<Slot>, drawn: seq<Slot>, g: Geometry, f: Format, was: seq<bv32>, cells: seq<bv32>,
                     pack: bool, py: nat, px: nat)
    requires IsFormat(f) && Stale(tested, drawn, g) && Visible(g, py, px)
    requires Composed(g, was, cells, drawn, Cleared(tested, g, false), pack, f)
    ensures At(g, py, px) < |cells| && cells[At(g, py, px)] == was[At(g, py, px)]
    ensures Shown(f, pack, cells[At(g, py, px)]) == Pack(f, Picture(drawn, py, px)) <==>
              Shown(f, pack, was[At(g, py, px)]) == Pack(f, BACKGROUND)
  {
    hide At, Top, Pack, Composed, Cleared, IsFormat, Picture, Shown;
    FramePixel(g, f, was, cells, drawn, Cleared(tested, g, false), pack, py, px);
  }

  const SMALL := Geometry(2, 2, 2)

  lemma NoneCovers(slots: seq<Slot>)
    requires forall i :: 0 <= i < |slots| ==> !Drawable(slots[i])
    ensures forall py: nat, px: nat :: Top(slots, py, px, |slots|).None?
  {
    hide Drawable;
  }

  /** The table after each of these operations on the first surface. */
  lemma FirstCreated(w: nat, h: nat)
    requires SizeError(w, h).None?
    ensures Apply(Start(), Create(Kernel, w, h)) ==
            Table(Start().slots[0 := Fresh(EmptySlot(), 1, 0, w, h)], 2)
  {
  }

  lemma FirstEdited(slot: Slot, change: Change)
    requires Has(slot, 1) && Precheck(change).None? && Edited(slot, change).Ok?
    ensures Apply(Table(Start().slots[0 := slot], 2), Edit(Kernel, 1, change)) ==
            Table(Start().slots[0 := Edited(slot, change).value], 2)
  {
    hide Edited, Precheck;
    var slots := Start().slots[0 := slot];
    assert Find(slots, 1, 0) == Some(0);
    assert slots[0 := Edited(slot, change).value] == Start().slots[0 := Edited(slot, change).value];
  }

  lemma FirstFlipped(slot: Slot)
    requires !slot.pending
    ensures Apply(Table(Start().slots[0 := slot], 2), FlipPending) == Table(Start().slots[0 := slot], 2)
  {
    assert FlippedAll(Start().slots[0 := slot]) == Start().slots[0 := slot];
  }

  /** A run in which a surface resized past its buffer suppresses the clear of a screen it then
      does not draw. */
  lemma ResizedPastBuffer() returns (tables: seq<Table>, ops: seq<Op>)
    ensures IsRun(tables, ops) && |ops| == 4 && ops[3] == FlipPending
    ensures HasContent(tables[4].slots) && Stale(tables[4].slots, tables[4].slots, SMALL)
  {
    hide Apply, Start, Top;
    var a := Fresh(EmptySlot(), 1, 0, 1, 1);
    var b := a.(presented := true);
    var c := b.(surface := b.surface.(x := 0, y := 0, width := 2, height := 2));
    FirstCreated(1, 1);
    FirstEdited(a, Present);
    FirstEdited(b, SetGeometry(0, 0, 2, 2));
    FirstFlipped(c);
    ops := [Create(Kernel, 1, 1), Edit(Kernel, 1, Present), Edit(Kernel, 1, SetGeometry(0, 0, 2, 2)), FlipPending];
    tables := [Start(), Apply(Start(), ops[0]), Table(Start().slots[0 := b], 2), Table(Start().slots[0 := c], 2),
               Table(Start().slots[0 := c], 2)];
    OnlyFirst(c);
    NoneCovers(tables[4].slots);
  }

  lemma OnlyFirst(slot: Slot)
    ensures var slots := Start().slots[0 := slot];
            slots[0] == slot && forall i :: 1 <= i < |slots| ==> slots[i] == EmptySlot()
  {
  }

  /** A run in which the surface that spans the screen is destroyed between the test and the
      drawing. */
  lemma DestroyedBetween() returns (tables: seq<Table>, ops: seq<Op>)
    ensures IsRun(tables, ops) && |ops| == 4 && ops[2] == FlipPending && ops[3] == Edit(Kernel, 1, Destroy)
    ensures HasContent(tables[3].slots) && Sufficient(tables[3].slots) && Sufficient(tables[4].slots)
    ensures Stale(tables[3].slots, tables[4].slots, SMALL)
  {
    hide Apply, Start, Top;
    var a := Fresh(EmptySlot(), 1, 0, 2, 2);
    var b := a.(presented := true);
    FirstCreated(2, 2);
    FirstEdited(a, Present);
    FirstFlipped(b);
    FirstEdited(b, Destroy);
    ops := [Create(Kernel, 2, 2), Edit(Kernel, 1, Present), FlipPending, Edit(Kernel, 1, Destroy)];
    tables := [Start(), Apply(Start(), ops[0]), Table(Start().slots[0 := b], 2), Table(Start().slots[0 := b], 2),
               Table(Start().slots[0 := EmptySlot()], 2)];
    OnlyFirst(b);
    OnlyFirst(EmptySlot());
    NoneCovers(tables[4].slots);
  }
}
