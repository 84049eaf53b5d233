/** The framebuffer: clipped fills and blits into a row-padded pixel array, drawn either
    straight to the panel or into a back buffer that `SwapBuffers` copies over, with the
    panel's own channel order applied on the way. */
module Framebuffer {

  // ── Colours ────────────────────────────────────────────────────────────────

  /** The bit positions of the panel's red, green and blue bytes. */
  datatype Format = Format(r: bv32, g: bv32, b: bv32)

  predicate Apart(a: bv32, b: bv32) {
    a + 8 <= b || b + 8 <= a
  }

  predicate IsFormat(f: Format) {
    f.r <= 24 && f.g <= 24 && f.b <= 24 && Apart(f.r, f.g) && Apart(f.g, f.b) && Apart(f.r, f.b)
  }

  function Byte(word: bv32, shift: bv32): bv32
    requires shift <= 24
  {
    (word >> shift) & 0xFF
  }

  function Compose(c: bv32, i: bv32, d: bv32, j: bv32, e: bv32, k: bv32): bv32
    requires i <= 24 && j <= 24 && k <= 24
  {
    Either(c << i, d << j, e << k)
  }

  function Either(a: bv32, b: bv32, c: bv32): bv32 {
    a | b | c
  }

  /** A 0x00RRGGBB colour in the panel's channel order. */
  function Pack(f: Format, color: bv32): bv32
    requires IsFormat(f)
  {
    if f.r == 16 && f.g == 8 && f.b == 0 then color
    else Compose(Byte(color, 16), f.r, Byte(color, 8), f.g, Byte(color, 0), f.b)
  }

  /** Little-endian R, G, B, A to 0x00RRGGBB. */
  function ToXrgb(px: bv32): bv32 {
    ((px & 0xFF) << 16) | (((px & 0xFF00) >> 8) << 8) | ((px & 0xFF_0000) >> 16)
  }

  /** A blitted pixel carries the source's R, G and B bytes at the panel's own positions. */
  lemma BlitShowsSource(f: Format, px: bv32)
    requires IsFormat(f)
    ensures var shown := Pack(f, ToXrgb(px));
            Byte(shown, f.r) == Byte(px, 0) && Byte(shown, f.g) == Byte(px, 8) && Byte(shown, f.b) == Byte(px, 16)
  {
    hide Byte, Compose, ToXrgb;
    var c := ToXrgb(px);
    XrgbBytes(px);
    ComposedBytes(f, Byte(c, 16), Byte(c, 8), Byte(c, 0));
  }

  lemma XrgbBytes(px: bv32)
    ensures var c := ToXrgb(px);
            && Byte(c, 16) == Byte(px, 0) <= 0xFF && Byte(c, 8) == Byte(px, 8) <= 0xFF
            && Byte(c, 0) == Byte(px, 16) <= 0xFF
  {
  }

  lemma ComposedBytes(f: Format, r: bv32, g: bv32, b: bv32)
    requires IsFormat(f) && r <= 0xFF && g <= 0xFF && b <= 0xFF
    ensures var word := Compose(r, f.r, g, f.g, b, f.b);
            Byte(word, f.r) == r && Byte(word, f.g) == g && Byte(word, f.b) == b
  {
    hide Byte, Compose, Apart;
    ApartCommutes(f.r, f.g);
    ApartCommutes(f.r, f.b);
    ApartCommutes(f.g, f.b);
    LeadingByte(r, f.r, g, f.g, b, f.b);
    LeadingByte(g, f.g, r, f.r, b, f.b);
    LeadingByte(b, f.b, g, f.g, r, f.r);
    ComposeCommutes(r, f.r, g, f.g, b, f.b);
    ComposeReverses(r, f.r, g, f.g, b, f.b);
  }

  lemma ApartCommutes(i: bv32, j: bv32)
    requires Apart(i, j)
    ensures Apart(j, i)
  {
  }

  lemma ComposeCommutes(c: bv32, i: bv32, d: bv32, j: bv32, e: bv32, k: bv32)
    requires i <= 24 && j <= 24 && k <= 24
    ensures Compose(c, i, d, j, e, k) == Compose(d, j, c, i, e, k)
  {
    hide Either;
    EitherCommutes(c << i, d << j, e << k);
  }

  lemma ComposeReverses(c: bv32, i: bv32, d: bv32, j: bv32, e: bv32, k: bv32)
    requires i <= 24 && j <= 24 && k <= 24
    ensures Compose(c, i, d, j, e, k) == Compose(e, k, d, j, c, i)
  {
    hide Either;
    EitherCommutes(c << i, d << j, e << k);
  }

  lemma EitherCommutes(a: bv32, b: bv32, c: bv32)
    ensures Either(a, b, c) == Either(b, a, c) && Either(a, b, c) == Either(c, b, a)
  {
  }

  lemma LeadingByte(c: bv32, i: bv32, d: bv32, j: bv32, e: bv32, k: bv32)
    requires c <= 0xFF && d <= 0xFF && e <= 0xFF && i <= 24 && j <= 24 && k <= 24
    requires Apart(i, j) && Apart(i, k)
    ensures Byte(Compose(c, i, d, j, e, k), i) == c
  {
    LeadingBits(c, i, d, j, e, k);
    assert Compose(c, i, d, j, e, k) == (c << i) | (d << j) | (e << k);
    assert Byte((c << i) | (d << j) | (e << k), i) == (((c << i) | (d << j) | (e << k)) >> i) & 0xFF;
  }

  lemma LeadingBits(c: bv32, i: bv32, d: bv32, j: bv32, e: bv32, k: bv32)
    requires c <= 0xFF && d <= 0xFF && e <= 0xFF && i <= 24 && j <= 24 && k <= 24
    requires Apart(i, j) && Apart(i, k)
    ensures (((c << i) | (d << j) | (e << k)) >> i) & 0xFF == c
  {
  }

  // ── Clipping ───────────────────────────────────────────────────────────────

  const I32_MAX: int := 0x7FFF_FFFF
  const U32: int := 0x1_0000_0000

  type I32 = x: int | -I32_MAX - 1 <= x <= I32_MAX

  /** The `as i32` cast of an unsigned size. */
  function AsI32(w: nat): I32
    requires w < U32
  {
    if w <= I32_MAX then w else w - U32
  }

  function SaturatingAdd(a: I32, b: I32): I32 {
    if a + b > I32_MAX then I32_MAX else if a + b < -I32_MAX - 1 then -I32_MAX - 1 else a + b
  }

  function Clamp(x: int, limit: nat): (r: nat)
    ensures r <= limit
  {
    if x < 0 then 0 else if x > limit then limit else x
  }

  function ClipEnd(x: I32, w: nat, limit: nat): nat
    requires w < U32
  {
    Clamp(SaturatingAdd(x, AsI32(w)), limit)
  }

  /** The clamped, saturating interval is the exact intersection with the screen. */
  lemma ClipIsIntersection(x: I32, w: nat, limit: nat, p: nat)
    requires w <= I32_MAX && limit <= I32_MAX && p < limit
    ensures Clamp(x, limit) <= p < ClipEnd(x, w, limit) <==> x <= p < x + w
  {
  }

  // ── Addressing ─────────────────────────────────────────────────────────────

  datatype Geometry = Geometry(width: nat, height: nat, pitch: nat)

  predicate IsGeometry(g: Geometry) {
    0 < g.width <= g.pitch && g.width <= I32_MAX && 0 < g.height <= I32_MAX
  }

  function At(g: Geometry, py: nat, px: nat): nat {
    py * g.pitch + px
  }

  predicate OnScreen(g: Geometry, py: int, px: int) {
    0 <= py < g.height && 0 <= px < g.pitch
  }

  lemma AtBound(g: Geometry, py: nat, px: nat)
    requires OnScreen(g, py, px)
    ensures At(g, py, px) < g.height * g.pitch
  {
    assert (py + 1) * g.pitch <= g.height * g.pitch;
  }

  /** The cells of row `row` from column `x0` on are a contiguous stretch, and no other row's. */
  lemma RowSpan(g: Geometry, row: nat, x0: nat, x1: nat, py: nat, px: nat)
    requires x0 <= x1 <= g.pitch && px < g.pitch
    ensures At(g, row, x0) <= At(g, py, px) < At(g, row, x0) + (x1 - x0) <==> py == row && x0 <= px < x1
  {
    if py < row {
      assert (py + 1) * g.pitch <= row * g.pitch;
    } else if py > row {
      assert (row + 1) * g.pitch <= py * g.pitch;
    }
  }

  // ── What a drawing call does to the pixels ─────────────────────────────────

  /** One colour, or an image whose top left corner is at `(x, y)`. */
  datatype Brush = Solid(color: bv32) | Image(x: int, y: int, w: nat, src: seq<bv32>)

  function BrushColor(brush: Brush, py: int, px: int): bv32 {
    match brush
    case Solid(color) => color
    case Image(x, y, w, src) =>
      var k := (py - y) * w + (px - x);
      if 0 <= k < |src| then ToXrgb(src[k]) else 0
  }

  /** `after` is `before` with the cells of the rectangle taken from the brush. */
  ghost predicate Painted(g: Geometry, before: seq<bv32>, after: seq<bv32>,
                          x0: nat, x1: nat, y0: nat, y1: nat, brush: Brush, pack: bool, f: Format)
    requires IsFormat(f)
  {
    && |before| == |after| == g.height * g.pitch
    && forall py: nat, px: nat {:trigger At(g, py, px)} :: OnScreen(g, py, px) ==>
         At(g, py, px) < |after| &&
         after[At(g, py, px)] ==
           (if y0 <= py < y1 && x0 <= px < x1 then Ink(f, pack, BrushColor(brush, py, px))
            else before[At(g, py, px)])
  }

  function Ink(f: Format, pack: bool, color: bv32): bv32
    requires IsFormat(f)
  {
    if pack then Pack(f, color) else color
  }

  lemma PaintNothing(g: Geometry, cells: seq<bv32>, x0: nat, x1: nat, y0: nat, y1: nat,
                     brush: Brush, pack: bool, f: Format)
    requires IsFormat(f) && |cells| == g.height * g.pitch && (y1 <= y0 || x1 <= x0)
    ensures Painted(g, cells, cells, x0, x1, y0, y1, brush, pack, f)
  {
    hide At, Ink, BrushColor;
    forall py: nat, px: nat | OnScreen(g, py, px) ensures At(g, py, px) < |cells| {
      AtBound(g, py, px);
    }
  }

  /** Painting one more row. */
  lemma PaintRow(g: Geometry, before: seq<bv32>, mid: seq<bv32>, after: seq<bv32>,
                 x0: nat, x1: nat, y0: nat, row: nat, brush: Brush, pack: bool, f: Format)
    requires IsFormat(f) && x0 <= x1 <= g.pitch && y0 <= row < g.height
    requires Painted(g, before, mid, x0, x1, y0, row, brush, pack, f)
    requires |after| == |mid|
    requires forall k :: 0 <= k < |mid| ==>
               after[k] == if At(g, row, x0) <= k < At(g, row, x0) + (x1 - x0)
                           then Ink(f, pack, BrushColor(brush, row, x0 + (k - At(g, row, x0))))
                           else mid[k]
    ensures Painted(g, before, after, x0, x1, y0, row + 1, brush, pack, f)
  {
    hide Ink, BrushColor;
    forall py: nat, px: nat | OnScreen(g, py, px)
      ensures At(g, py, px) < |after| && after[At(g, py, px)] ==
                (if y0 <= py < row + 1 && x0 <= px < x1 then Ink(f, pack, BrushColor(brush, py, px))
                 else before[At(g, py, px)])
    {
      RowSpan(g, row, x0, x1, py, px);
      if py == row && x0 <= px < x1 {
        assert x0 + (At(g, py, px) - At(g, row, x0)) == px;
      }
    }
  }

  lemma SpanBound(g: Geometry, row: nat, x0: nat, x1: nat)
    requires row < g.height && x0 <= x1 <= g.pitch
    ensures At(g, row, x0) + (x1 - x0) <= g.height * g.pitch
  {
    assert (row + 1) * g.pitch <= g.height * g.pitch;
  }

  /** The source columns and rows a clipped blit reads exist. */
  lemma SourceInside(x: I32, w: nat, limit: nat)
    requires w <= I32_MAX && limit <= I32_MAX && Clamp(x, limit) < ClipEnd(x, w, limit)
    ensures x <= Clamp(x, limit) && ClipEnd(x, w, limit) <= x + w
  {
  }

  lemma RowInside(row: nat, w: nat, h: nat)
    requires row < h
    ensures 0 <= row * w && row * w + w <= w * h
  {
    assert (row + 1) * w <= h * w;
  }

  lemma SourceCells(brush: Brush, h: nat, x0: nat, n: nat, row: nat, srcRow: int)
    requires brush.Image? && brush.w * h <= |brush.src|
    requires brush.x <= x0 && x0 + n <= brush.x + brush.w && brush.y <= row < brush.y + h
    requires srcRow == (row - brush.y) * brush.w + (x0 - brush.x)
    ensures 0 <= srcRow && srcRow + n <= |brush.src|
    ensures forall px :: x0 <= px < x0 + n ==>
              BrushColor(brush, row, px) == ToXrgb(brush.src[srcRow + (px - x0)])
  {
    hide ToXrgb;
    RowInside(row - brush.y, brush.w, h);
    forall px | x0 <= px < x0 + n
      ensures BrushColor(brush, row, px) == ToXrgb(brush.src[srcRow + (px - x0)])
    {
      assert (row - brush.y) * brush.w + (px - brush.x) == srcRow + (px - x0);
    }
  }

  class Screen {
    const g: Geometry
    const f: Format
    const panel: array<bv32>
    var back: array?<bv32>
    var active: bool

    ghost predicate Valid()
      reads this
    {
      && IsGeometry(g) && IsFormat(f) && panel.Length == g.height * g.pitch
      && (back != null ==> back.Length == panel.Length && back != panel)
    }

    /** A panel found at boot, drawn directly until a back buffer is allocated. */
    constructor (geometry: Geometry, format: Format)
      requires IsGeometry(geometry) && IsFormat(format)
      ensures Valid() && g == geometry && f == format && back == null && !Buffered() && fresh(panel)
    {
      g, f := geometry, format;
      panel := new bv32[geometry.height * geometry.pitch](_ => 0);
      back, active := null, false;
    }

    predicate Buffered()
      reads this
    {
      active && back != null
    }

    /** Where drawing goes. */
    function Target(): array<bv32>
      reads this
    {
      if active && back != null then back else panel
    }

    method FillRow(t: array<bv32>, start: nat, n: nat, ink: bv32)
      requires start + n <= t.Length
      modifies t
      ensures forall k :: 0 <= k < t.Length ==> t[k] == if start <= k < start + n then ink else old(t[k])
    {
      var i := 0;
      while i < n
        invariant 0 <= i <= n
        invariant forall k :: 0 <= k < t.Length ==> t[k] == if start <= k < start + i then ink else old(t[k])
      {
        t[start + i] := ink;
        i := i + 1;
      }
    }

    method BlitRow(t: array<bv32>, start: nat, n: nat, src: seq<bv32>, srcRow: nat, pack: bool)
      requires IsFormat(f) && start + n <= t.Length && srcRow + n <= |src|
      modifies t
      ensures forall k :: 0 <= k < t.Length ==>
                t[k] == if start <= k < start + n then Ink(f, pack, ToXrgb(src[srcRow + (k - start)]))
                        else old(t[k])
    {
      hide Ink, ToXrgb, IsFormat;
      var i := 0;
      while i < n
        invariant 0 <= i <= n
        invariant forall k :: 0 <= k < t.Length ==>
                    t[k] == if start <= k < start + i then Ink(f, pack, ToXrgb(src[srcRow + (k - start)]))
                            else old(t[k])
      {
        t[start + i] := Ink(f, pack, ToXrgb(src[srcRow + i]));
        i := i + 1;
      }
    }

    method FillRect(x: I32, y: I32, w: nat, h: nat, color: bv32)
      requires Valid() && w < U32 && h < U32
      modifies Target()
      ensures Valid()
      ensures Painted(g, old(Target()[..]), Target()[..], Clamp(x, g.width), ClipEnd(x, w, g.width),
                      Clamp(y, g.height), ClipEnd(y, h, g.height), Solid(color), !Buffered(), f)
    {
      hide Ink, Painted, IsFormat, At;
      ghost var before := Target()[..];
      var t, pack := Target(), !Buffered();
      var x0, y0 := Clamp(x, g.width), Clamp(y, g.height);
      var x1, y1 := ClipEnd(x, w, g.width), ClipEnd(y, h, g.height);
      if x0 >= x1 || y0 >= y1 {
        PaintNothing(g, before, x0, x1, y0, y1, Solid(color), pack, f);
        return;
      }
      var py := y0;
      PaintNothing(g, before, x0, x1, y0, y0, Solid(color), pack, f);
      while py < y1
        invariant y0 <= py <= y1 && t == Target()
        invariant Painted(g, before, t[..], x0, x1, y0, py, Solid(color), pack, f)
      {
        ghost var mid := t[..];
        SpanBound(g, py, x0, x1);
        FillRow(t, At(g, py, x0), x1 - x0, Ink(f, pack, color));
        PaintRow(g, before, mid, t[..], x0, x1, y0, py, Solid(color), pack, f);
        py := py + 1;
      }
    }

    /** Draws nothing when the source is short of `w * h` pixels. */
    method Blit(x: I32, y: I32, w: nat, h: nat, src: seq<bv32>)
      requires Valid() && w <= I32_MAX && h <= I32_MAX
      modifies Target()
      ensures Valid()
      ensures if |src| < w * h then Target()[..] == old(Target()[..])
              else Painted(g, old(Target()[..]), Target()[..], Clamp(x, g.width), ClipEnd(x, w, g.width),
                           Clamp(y, g.height), ClipEnd(y, h, g.height), Image(x, y, w, src), !Buffered(), f)
    {
      hide Ink, Painted, IsFormat, At;
      ghost var before := Target()[..];
      var t, pack := Target(), !Buffered();
      ghost var brush := Image(x, y, w, src);
      if |src| < w * h {
        return;
      }
      var x0, y0 := Clamp(x, g.width), Clamp(y, g.height);
      var x1, y1 := ClipEnd(x, w, g.width), ClipEnd(y, h, g.height);
      if x0 >= x1 || y0 >= y1 {
        PaintNothing(g, before, x0, x1, y0, y1, brush, pack, f);
        return;
      }
      SourceInside(x, w, g.width);
      SourceInside(y, h, g.height);
      var row := 0;
      PaintNothing(g, before, x0, x1, y0, y0, brush, pack, f);
      while row < y1 - y0
        invariant 0 <= row <= y1 - y0 && t == Target()
        invariant Painted(g, before, t[..], x0, x1, y0, y0 + row, brush, pack, f)
      {
        ghost var mid := t[..];
        SpanBound(g, y0 + row, x0, x1);
        var srcRow := ((y0 - y) + row) * w + (x0 - x);
        SourceCells(brush, h, x0, x1 - x0, y0 + row, srcRow);
        BlitRow(t, At(g, y0 + row, x0), x1 - x0, src, srcRow, pack);
        PaintRow(g, before, mid, t[..], x0, x1, y0, y0 + row, brush, pack, f);
        row := row + 1;
      }
    }

    /** Copies the back buffer to the panel in the panel's channel order. */
    method SwapBuffers()
      requires Valid()
      modifies panel
      ensures Valid()
      ensures if !Buffered() then panel[..] == old(panel[..])
              else forall k :: 0 <= k < panel.Length ==> panel[k] == Pack(f, back[k])
    {
      hide Pack, IsFormat;
      if Buffered() {
        var i := 0;
        while i < panel.Length
          invariant 0 <= i <= panel.Length
          invariant forall k :: 0 <= k < i ==> panel[k] == Pack(f, back[k])
        {
          panel[i] := Pack(f, back[i]);
          i := i + 1;
        }
      }
    }
  }
}
