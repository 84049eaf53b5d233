/** Where the three areas of a legacy split virtqueue lie (VIRTIO 1.1, section 2.6.2): the
    descriptor table, the available ring and the used ring, for the queue size the device
    reports. */
module VringLayout {

  import opened Options

  const PAGE: nat := 4096

  datatype Layout = Layout(qsize: nat, availIdxOff: nat, availRingOff: nat, usedIdxOff: nat, usedRingOff: nat,
                           pageCount: nat)

  const SIZES: set<nat> :=
    {1, 2, 4, 8, 16, 32, 64, 128, 256, 512, 1024, 2048, 4096, 8192, 16384, 32768}

  /** The size test of the source, on a 16-bit word. */
  predicate Accepts(q: bv16) {
    q != 0 && q & (q - 1) == 0
  }

  /** The test accepts exactly the powers of two. */
  lemma AcceptsPowersOfTwo(q: bv16)
    ensures Accepts(q) <==>
      q in {1, 2, 4, 8, 16, 32, 64, 128, 256, 512, 1024, 2048, 4096, 8192, 16384, 32768}
  {
  }

  /** For each accepted size, masking an index with one less is taking the remainder. */
  lemma MaskIsRemainder(index: bv16)
    ensures index & 0 == index % 1 && index & 1 == index % 2 && index & 3 == index % 4 && index & 7 == index % 8
    ensures index & 15 == index % 16 && index & 31 == index % 32 && index & 63 == index % 64 && index & 127 == index % 128
    ensures index & 255 == index % 256 && index & 511 == index % 512 && index & 1023 == index % 1024 && index & 2047 == index % 2048
    ensures index & 4095 == index % 4096 && index & 8191 == index % 8192 && index & 16383 == index % 16384 && index & 32767 == index % 32768
  {
  }

  function AlignUp(x: nat): (r: nat)
    ensures x <= r < x + 4096 && r % 4096 == 0
  {
    (x + PAGE - 1) / PAGE * PAGE
  }

  function ForQsize(q: nat): Option<Layout> {
    if q !in SIZES then None
    else
      var descSize := 16 * q;
      var availRingOff := descSize + 4;
      var usedBase := AlignUp(availRingOff + 2 * q);
      var usedIdxOff := usedBase + 2;
      var usedRingOff := usedIdxOff + 2;
      var usedRingEnd := usedRingOff + 8 * q;
      Some(Layout(q, descSize + 2, availRingOff, usedIdxOff, usedRingOff, (usedRingEnd + PAGE - 1) / PAGE))
  }

  function UsedElemOffset(l: Layout, index: nat): nat
    requires l.qsize > 0
  {
    l.usedRingOff + 8 * (index % l.qsize)
  }

  /** What the legacy layout asks for: each area after the other, the used ring where
      `ALIGN(16 q + 2 (3 + q))` puts it, and the pages enough but not too many. */
  lemma LayoutIsLegacy(q: nat)
    requires q in SIZES
    ensures var l := ForQsize(q).value;
            && l.usedIdxOff - 2 == AlignUp(16 * q + 2 * (3 + q))
            && 16 * q + 2 == l.availIdxOff && l.availRingOff == l.availIdxOff + 2
            && l.availRingOff + 2 * q + 2 <= l.usedIdxOff - 2
            && l.usedRingOff == l.usedIdxOff + 2
            && (l.pageCount - 1) * 4096 < l.usedIdxOff + 2 + 8 * q <= l.pageCount * 4096
  {
    hide AlignUp;
    NotAtBoundary(q);
    AlignedAlike(18 * q + 4);
  }

  lemma NotAtBoundary(q: nat)
    requires q in SIZES
    ensures 0 < (18 * q + 4) % PAGE < PAGE - 1
  {
  }

  lemma AlignedAlike(x: nat)
    requires 0 < x % PAGE < PAGE - 1
    ensures AlignUp(x) == AlignUp(x + 2)
  {
  }

  /** Every ring access is inside its own area, whatever the free-running index: no available
      entry touches an index word or the used ring, no used element leaves the pages. */
  lemma EntriesInBounds(q: nat, index: nat)
    requires q in SIZES
    ensures var l := ForQsize(q).value;
            && l.availIdxOff + 2 <= l.availRingOff + 2 * (index % q)
            && l.availRingOff + 2 * (index % q) + 2 <= l.usedIdxOff - 2
            && l.usedIdxOff + 2 <= UsedElemOffset(l, index)
            && UsedElemOffset(l, index) + 8 <= l.pageCount * PAGE
  {
  }
}
