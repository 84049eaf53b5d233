/** The unified surface submit: a BGRA frame with a row stride becomes the compositor's RGBA
    back buffer in one pass over 32-bit words, in place of re-packing the rows tightly and
    then exchanging bytes. */
module PixelPath {

  /** The little-endian word at a byte offset. */
  function Word(bytes: seq<bv8>, at: nat): bv32
    requires at + 4 <= |bytes|
  {
    Little(bytes[at], bytes[at + 1], bytes[at + 2], bytes[at + 3])
  }

  function Little(b0: bv8, b1: bv8, b2: bv8, b3: bv8): bv32 {
    (b0 as bv32) | ((b1 as bv32) << 8) | ((b2 as bv32) << 16) | ((b3 as bv32) << 24)
  }

  lemma LittleBytes(b0: bv8, b1: bv8, b2: bv8, b3: bv8)
    ensures var w := Little(b0, b1, b2, b3);
            && w & 0xFF == b0 as bv32 && (w >> 8) & 0xFF == b1 as bv32
            && (w >> 16) & 0xFF == b2 as bv32 && w >> 24 == b3 as bv32
  {
  }

  function SwapRedBlue(p: bv32): bv32 {
    (p & 0xFF00_FF00) | ((p & 0xFF) << 16) | ((p & 0xFF_0000) >> 16)
  }

  const U64: nat := 0x1_0000_0000_0000_0000
  const U32: nat := 0x1_0000_0000

  type Usize = n: nat | n < U64

  /** A byte slice is less than half the address space. */
  type Slice = s: seq<bv8> | |s| < 0x8000_0000_0000_0000 witness []

  /** Source pixels per row; no stride given means tight rows. */
  function RowPixels(w: nat, rowBytes: Usize): (r: nat)
    ensures w < U32 ==> r < U64 / 4
  {
    if rowBytes == 0 then w else rowBytes / 4
  }

  /** The source's only size check; the product wraps. */
  predicate Accepted(bytes: seq<bv8>, rowPx: nat, h: nat) {
    rowPx * 4 * h % U64 <= |bytes|
  }

  /** Where a pixel is read, from the start of the payload; addresses wrap too. */
  function Place(rowPx: nat, y: nat, x: nat): (r: nat)
    ensures r + 4 <= U64
  {
    WholeWords(y * rowPx + x);
    (y * rowPx + x) * 4 % U64
  }

  lemma WholeWords(n: nat)
    ensures n * 4 % U64 + 4 <= U64
  {
    var q, r := n * 4 / U64, n * 4 % U64;
    assert r == 4 * (n - q * (U64 / 4));
  }

  /** Every pixel read is inside. */
  predicate Fits(bytes: seq<bv8>, w: nat, rowPx: nat, h: nat) {
    forall y: nat, x: nat :: y < h && x < w ==> Place(rowPx, y, x) + 4 <= |bytes|
  }

  /** One past the last byte of the last pixel, before any wrapping. */
  function End(w: nat, rowPx: nat, h: nat): nat
    requires h >= 1
  {
    ((h - 1) * rowPx + w) * 4
  }

  /** Reads that step through the whole address space leave the lower half of it. */
  lemma Crossing(step: nat, n: nat) returns (y: nat)
    requires step < U64 && step * n >= U64
    ensures y < n && U64 / 2 <= step * y < U64
  {
    y := (U64 - 1) / step;
    assert step * y + (U64 - 1) % step == U64 - 1;
    assert y >= n ==> step * y >= step * n;
    assert step > U64 / 2 ==> y == 1;
  }

  /** An upper-half row, if the rows reach that far. */
  lemma RowOutside(rowPx: nat, h: nat) returns (y: nat)
    requires rowPx < U64 / 4 && h >= 1 && (h - 1) * rowPx * 4 >= U64 / 2
    ensures y < h && Place(rowPx, y, 0) >= U64 / 2
  {
    var step := rowPx * 4;
    y := h - 1;
    assert (h - 1) * rowPx * 4 == step * (h - 1);
    if step * (h - 1) >= U64 {
      y := Crossing(step, h - 1);
    }
    assert (y * rowPx + 0) * 4 == step * y;
  }

  lemma PlaceBelow(w: nat, rowPx: nat, h: nat, y: nat, x: nat)
    requires y < h && x < w && End(w, rowPx, h) <= U64
    ensures Place(rowPx, y, x) == (y * rowPx + x) * 4 && Place(rowPx, y, x) + 4 <= End(w, rowPx, h)
  {
    assert y * rowPx <= (h - 1) * rowPx;
  }

  /** Every pixel read is inside a payload exactly when the last one is, without wrapping. */
  lemma FitsIsInBounds(bytes: Slice, w: nat, rowPx: nat, h: nat)
    requires 1 <= w < U32 && h >= 1 && rowPx < U64 / 4
    ensures Fits(bytes, w, rowPx, h) <==> End(w, rowPx, h) <= |bytes|
  {
    hide Place;
    if End(w, rowPx, h) <= |bytes| {
      forall y: nat, x: nat | y < h && x < w ensures Place(rowPx, y, x) + 4 <= |bytes| {
        PlaceBelow(w, rowPx, h, y, x);
      }
    } else if (h - 1) * rowPx * 4 >= U64 / 2 {
      var y := RowOutside(rowPx, h);
      assert Place(rowPx, y, 0) + 4 > |bytes|;
    } else {
      PlaceBelow(w, rowPx, h, h - 1, w - 1);
      LastPlace(w, rowPx, h);
      assert Place(rowPx, h - 1, w - 1) + 4 > |bytes|;
    }
  }

  lemma LastPlace(w: nat, rowPx: nat, h: nat)
    requires w >= 1 && h >= 1 && End(w, rowPx, h) <= U64
    ensures Place(rowPx, h - 1, w - 1) + 4 == End(w, rowPx, h)
  {
  }

  /** An accepted payload holds every pixel read exactly when the size product did not wrap, and
      a row fits its stride or the payload happens to reach past the last row. */
  lemma AcceptedFits(bytes: Slice, w: nat, rowPx: nat, h: nat)
    requires 1 <= w < U32 && h >= 1 && rowPx < U64 / 4 && Accepted(bytes, rowPx, h)
    ensures Fits(bytes, w, rowPx, h) <==>
              && rowPx * 4 * h < U64
              && (w <= rowPx || |bytes| >= rowPx * 4 * h + (w - rowPx) * 4)
  {
    hide Fits;
    FitsIsInBounds(bytes, w, rowPx, h);
    assert rowPx * 4 * h == End(w, rowPx, h) + (rowPx - w) * 4;
    if h >= 2 {
      assert (h - 1) * rowPx >= rowPx;
    }
  }

  /** Four pixels with a stride of one pass the size check with four bytes and read twelve more;
      with sixteen bytes the same stride stays inside. */
  lemma ShortStride()
    ensures var four := [0, 0, 0, 0];
            Accepted(four, RowPixels(4, 4), 1) && !Fits(four, 4, RowPixels(4, 4), 1)
            && Fits(four + four + four + four, 4, RowPixels(4, 4), 1)
  {
    var four: Slice := [0, 0, 0, 0];
    FitsIsInBounds(four, 4, 1, 1);
    FitsIsInBounds(four + four + four + four, 4, 1, 1);
  }

  /** Four rows with a stride of a quarter of the address space pass the size check with no
      payload at all, though a row fits its stride. */
  lemma WrappedStride()
    ensures var rowPx := RowPixels(1, 0x4000_0000_0000_0000);
            1 <= rowPx < U64 / 4 && rowPx * 4 * 4 == U64 && Accepted([], rowPx, 4) && !Fits([], 1, rowPx, 4)
  {
    FitsIsInBounds([], 1, 0x1000_0000_0000_0000, 4);
  }

  /** The buffer after the first `y` rows. */
  ghost function OnePass(bytes: seq<bv8>, w: nat, rowPx: nat, h: nat, y: nat): (r: seq<bv32>)
    requires Fits(bytes, w, rowPx, h) && y <= h
    ensures |r| == y * w
  {
    if y == 0 then [] else OnePass(bytes, w, rowPx, h, y - 1) + OnePassRow(bytes, w, rowPx, h, y - 1)
  }

  ghost function OnePassRow(bytes: seq<bv8>, w: nat, rowPx: nat, h: nat, y: nat): (r: seq<bv32>)
    requires Fits(bytes, w, rowPx, h) && y < h
    ensures |r| == w
  {
    seq(w, x requires 0 <= x < w => Submitted(bytes, w, rowPx, h, y, x))
  }

  ghost function Submitted(bytes: seq<bv8>, w: nat, rowPx: nat, h: nat, y: nat, x: nat): bv32
    requires Fits(bytes, w, rowPx, h) && y < h && x < w
  {
    SwapRedBlue(Word(bytes, Place(rowPx, y, x)))
  }

  /** Each pixel of the frame is its own place's word of the payload. */
  lemma {:induction false} OnePassAt(bytes: seq<bv8>, w: nat, rowPx: nat, h: nat, n: nat, y: nat, x: nat)
    requires Fits(bytes, w, rowPx, h) && y < n <= h && x < w
    ensures 0 <= y * w + x < |OnePass(bytes, w, rowPx, h, n)|
    ensures OnePass(bytes, w, rowPx, h, n)[y * w + x] == Submitted(bytes, w, rowPx, h, y, x)
  {
    hide Submitted;
    assert n * w == (n - 1) * w + w;
    if y < n - 1 {
      OnePassAt(bytes, w, rowPx, h, n - 1, y, x);
    }
  }

  // ── The two-pass reference ─────────────────────────────────────────────────

  /** The first `y` rows without their padding. */
  function Repacked(bytes: seq<bv8>, w: nat, rowBytes: nat, h: nat, y: nat): (r: seq<bv8>)
    requires 4 * w <= rowBytes && rowBytes * h <= |bytes| && y <= h
    ensures |r| == y * (4 * w)
  {
    if y == 0 then []
    else
      RowEnd(rowBytes, h, y - 1);
      Repacked(bytes, w, rowBytes, h, y - 1) + bytes[(y - 1) * rowBytes..(y - 1) * rowBytes + 4 * w]
  }

  lemma RowEnd(rowBytes: nat, h: nat, y: nat)
    requires y < h
    ensures 0 <= y * rowBytes && y * rowBytes + rowBytes <= rowBytes * h
  {
    assert (y + 1) * rowBytes <= h * rowBytes;
  }

  /** Byte by byte: B, G, R, A in, R, G, B, A out. */
  function Exchanged(tight: seq<bv8>, n: nat): seq<bv32>
    requires 4 * n <= |tight|
  {
    seq(n, i requires 0 <= i < n =>
      Little(tight[4 * i + 2], tight[4 * i + 1], tight[4 * i], tight[4 * i + 3]))
  }

  lemma SwapsBytes(b0: bv8, b1: bv8, b2: bv8, b3: bv8)
    ensures SwapRedBlue(Little(b0, b1, b2, b3)) == Little(b2, b1, b0, b3)
  {
  }

  lemma ExchangedAppends(a: seq<bv8>, m: nat, b: seq<bv8>, n: nat)
    requires |a| == 4 * m && |b| == 4 * n
    ensures Exchanged(a + b, m + n) == Exchanged(a, m) + Exchanged(b, n)
  {
    hide Little;
  }

  lemma RowAgrees(bytes: Slice, w: nat, rowBytes: nat, h: nat, y: nat)
    requires rowBytes % 4 == 0 && 4 * w <= rowBytes && rowBytes * h <= |bytes| && y < h
    requires Fits(bytes, w, rowBytes / 4, h)
    requires 0 <= y * rowBytes && y * rowBytes + 4 * w <= |bytes|
    ensures OnePassRow(bytes, w, rowBytes / 4, h, y) == Exchanged(bytes[y * rowBytes..y * rowBytes + 4 * w], w)
  {
    hide Little, SwapRedBlue;
    var row := bytes[y * rowBytes..y * rowBytes + 4 * w];
    forall x | 0 <= x < w
      ensures OnePassRow(bytes, w, rowBytes / 4, h, y)[x] == Exchanged(row, w)[x]
    {
      assert (y * (rowBytes / 4) + x) * 4 == y * rowBytes + 4 * x;
      assert Place(rowBytes / 4, y, x) == y * rowBytes + 4 * x;
      SwapsBytes(row[4 * x], row[4 * x + 1], row[4 * x + 2], row[4 * x + 3]);
    }
  }

  lemma StrideFits(bytes: Slice, w: nat, rowBytes: nat, h: nat)
    requires rowBytes % 4 == 0 && 4 * w <= rowBytes && rowBytes * h <= |bytes|
    ensures Fits(bytes, w, rowBytes / 4, h)
  {
    hide Place;
    if h >= 1 {
      assert rowBytes * h == (h - 1) * (rowBytes / 4) * 4 + rowBytes;
      forall y: nat, x: nat | y < h && x < w ensures Place(rowBytes / 4, y, x) + 4 <= |bytes| {
        PlaceBelow(w, rowBytes / 4, h, y, x);
      }
    }
  }

  /** The one-pass submit is re-pack followed by byte exchange, for every frame and every
      stride that is a multiple of 4. */
  lemma {:induction false} OnePassRefines(bytes: Slice, w: nat, rowBytes: nat, h: nat, y: nat)
    requires rowBytes % 4 == 0 && 4 * w <= rowBytes && rowBytes * h <= |bytes| && y <= h
    ensures Fits(bytes, w, rowBytes / 4, h)
    ensures |Repacked(bytes, w, rowBytes, h, y)| == 4 * (y * w)
    ensures OnePass(bytes, w, rowBytes / 4, h, y) == Exchanged(Repacked(bytes, w, rowBytes, h, y), y * w)
  {
    hide Exchanged, OnePassRow, Fits, Place;
    StrideFits(bytes, w, rowBytes, h);
    FourTimes(y, w);
    if y == 0 {
      EmptyExchange();
    } else {
      OnePassRefines(bytes, w, rowBytes, h, y - 1);
      RowEnd(rowBytes, h, y - 1);
      RowAgrees(bytes, w, rowBytes, h, y - 1);
      FourTimes(y - 1, w);
      var row := bytes[(y - 1) * rowBytes..(y - 1) * rowBytes + 4 * w];
      ExchangedAppends(Repacked(bytes, w, rowBytes, h, y - 1), (y - 1) * w, row, w);
      OneMore(y, w);
    }
  }

  lemma FourTimes(y: nat, w: nat)
    ensures 0 <= y * w && y * (4 * w) == 4 * (y * w)
  {
  }

  lemma OneMore(y: nat, w: nat)
    requires y >= 1
    ensures (y - 1) * w + w == y * w
  {
  }

  lemma EmptyExchange()
    ensures Exchanged([], 0) == []
  {
  }

  // ── Past the payload ───────────────────────────────────────────────────────

  lemma {:induction false} BeyondUnread(bytes: seq<bv8>, beyond: seq<bv8>, w: nat, rowPx: nat, h: nat, y: nat)
    requires Fits(bytes, w, rowPx, h) && Fits(bytes + beyond, w, rowPx, h) && y <= h
    ensures OnePass(bytes + beyond, w, rowPx, h, y) == OnePass(bytes, w, rowPx, h, y)
  {
    hide SwapRedBlue, Little, Place;
    if y > 0 {
      BeyondUnread(bytes, beyond, w, rowPx, h, y - 1);
      var all, k := bytes + beyond, y - 1;
      forall x: nat | x < w ensures Submitted(all, w, rowPx, h, k, x) == Submitted(bytes, w, rowPx, h, k, x) {
        assert Place(rowPx, k, x) + 4 <= |bytes|;
      }
      assert OnePassRow(all, w, rowPx, h, k) == OnePassRow(bytes, w, rowPx, h, k);
    }
  }

  lemma TopByteShows(a0: bv8, a1: bv8, a2: bv8, b0: bv8, b1: bv8, b2: bv8)
    ensures SwapRedBlue(Little(a0, a1, a2, 0)) != SwapRedBlue(Little(b0, b1, b2, 1))
  {
  }

  /** When a read passes the payload's end, what lies there decides the frame: two memories
      that differ only past the payload give two frames. */
  lemma BeyondShows(bytes: seq<bv8>, w: nat, rowPx: nat, h: nat) returns (a: seq<bv8>, b: seq<bv8>)
    requires !Fits(bytes, w, rowPx, h)
    ensures Fits(bytes + a, w, rowPx, h) && Fits(bytes + b, w, rowPx, h)
    ensures OnePass(bytes + a, w, rowPx, h, h) != OnePass(bytes + b, w, rowPx, h, h)
  {
    hide OnePass, SwapRedBlue, Little, Place;
    var y: nat, x: nat :| y < h && x < w && Place(rowPx, y, x) + 4 > |bytes|;
    var at := Place(rowPx, y, x);
    a := seq(U64, _ => 0);
    b := a[at + 3 - |bytes| := 1];
    var m, m' := bytes + a, bytes + b;
    OnePassAt(m, w, rowPx, h, h, y, x);
    OnePassAt(m', w, rowPx, h, h, y, x);
    assert m[at + 3] == 0 && m'[at + 3] == 1;
    TopByteShows(m[at], m[at + 1], m[at + 2], m'[at], m'[at + 1], m'[at + 2]);
  }

  /** The submit loop: every pixel of the buffer comes from the payload. */
  method SubmitPixels(buf: array<bv32>, bytes: seq<bv8>, w: nat, h: nat, rowPx: nat)
    requires Fits(bytes, w, rowPx, h) && buf.Length == h * w
    modifies buf
    ensures buf[..] == OnePass(bytes, w, rowPx, h, h)
  {
    hide OnePassRow, Submitted, Word;
    var y := 0;
    while y < h
      invariant 0 <= y <= h && y * w <= buf.Length
      invariant buf[..y * w] == OnePass(bytes, w, rowPx, h, y)
    {
      RowEnd(w, h, y);
      SubmitRow(buf, bytes, w, h, rowPx, y);
      assert buf[..y * w + w] == buf[..y * w] + buf[y * w..y * w + w];
      assert (y + 1) * w == y * w + w;
      y := y + 1;
    }
  }

  method SubmitRow(buf: array<bv32>, bytes: seq<bv8>, w: nat, h: nat, rowPx: nat, y: nat)
    requires Fits(bytes, w, rowPx, h) && y < h && 0 <= y * w && y * w + w <= buf.Length
    modifies buf
    ensures buf[..y * w] == old(buf[..y * w])
    ensures buf[y * w..y * w + w] == OnePassRow(bytes, w, rowPx, h, y)
  {
    hide SwapRedBlue, Little, Word, Place;
    var start := y * w;
    var x := 0;
    while x < w
      invariant 0 <= x <= w
      invariant buf[..start] == old(buf[..start])
      invariant forall i :: 0 <= i < x ==> buf[start + i] == Submitted(bytes, w, rowPx, h, y, i)
    {
      buf[start + x] := SwapRedBlue(Word(bytes, Place(rowPx, y, x)));
      x := x + 1;
    }
  }
}
