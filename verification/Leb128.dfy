/** LEB128 integers as the WASM sandbox decodes them, against the value the grammar of
    WebAssembly Core 1.0, section 5.2.2, gives them. */
module Leb128 {

  // ── The grammar's value ────────────────────────────────────────────────────

  /** At most five bytes, the continuation bit set on all but the last. */
  predicate IsLeb(bs: seq<bv8>) {
    1 <= |bs| <= 5 && !Goes(bs[|bs| - 1]) && forall i :: 0 <= i < |bs| - 1 ==> Goes(bs[i])
  }

  function Low(b: bv8): bv32 {
    (b & 0x7F) as bv32
  }

  function Or(a: bv32, b: bv32): bv32 {
    a | b
  }

  function Times128(v: bv32): bv32 {
    v << 7
  }

  predicate Goes(b: bv8) {
    b & 0x80 != 0
  }

  predicate Minus(b: bv8) {
    b & 0x40 != 0
  }

  /** Unsigned: the first byte's seven bits, then 128 times the rest. */
  function Unsigned(bs: seq<bv8>): bv32
    requires |bs| >= 1
  {
    if |bs| == 1 then Low(bs[0]) else Or(Low(bs[0]), Times128(Unsigned(bs[1..])))
  }

  /** Signed: the same, the last byte read as a seven-bit two's complement number. */
  function Signed(bs: seq<bv8>): bv32
    requires |bs| >= 1
  {
    if |bs| == 1 then Extended(bs[0]) else Or(Low(bs[0]), Times128(Signed(bs[1..])))
  }

  function Extended(b: bv8): bv32 {
    if Minus(b) then Or(Low(b), 0xFFFF_FF80) else Low(b)
  }

  /** Every 32-bit number has an encoding. */
  function Encode(v: bv32): seq<bv8> {
    [((v & 0x7F) | 0x80) as bv8, (((v >> 7) & 0x7F) | 0x80) as bv8, (((v >> 14) & 0x7F) | 0x80) as bv8,
     (((v >> 21) & 0x7F) | 0x80) as bv8, ((v >> 28) & 0x7F) as bv8]
  }

  lemma EncodeIsLeb(v: bv32)
    ensures IsLeb(Encode(v))
  {
  }

  /** It is well formed and its value is the number, read either way. */
  lemma EncodeIs(v: bv32)
    ensures IsLeb(Encode(v)) && Unsigned(Encode(v)) == v && Signed(Encode(v)) == v
  {
    hide Or, Low, Times128, Extended;
    EncodeIsLeb(v);
    var e := Encode(v);
    var e1, e2, e3, e4 := e[1..], e[2..], e[3..], e[4..];
    assert e1[1..] == e2 && e2[1..] == e3 && e3[1..] == e4;
    assert Unsigned(e4) == Low(e[4]) && Signed(e4) == Extended(e[4]);
    assert Unsigned(e3) == Or(Low(e[3]), Times128(Unsigned(e4))) && Signed(e3) == Or(Low(e[3]), Times128(Signed(e4)));
    assert Unsigned(e2) == Or(Low(e[2]), Times128(Unsigned(e3))) && Signed(e2) == Or(Low(e[2]), Times128(Signed(e3)));
    assert Unsigned(e1) == Or(Low(e[1]), Times128(Unsigned(e2))) && Signed(e1) == Or(Low(e[1]), Times128(Signed(e2)));
    EncodedBits(v);
  }

  lemma EncodedBits(v: bv32)
    ensures var e := Encode(v);
            v == Or(Low(e[0]), Times128(Or(Low(e[1]), Times128(Or(Low(e[2]), Times128(Or(Low(e[3]), Times128(Low(e[4])))))))))
    ensures var e := Encode(v);
            v == Or(Low(e[0]), Times128(Or(Low(e[1]), Times128(Or(Low(e[2]), Times128(Or(Low(e[3]), Times128(Extended(e[4])))))))))
  {
  }

  /** The encoding of `k` bytes: the lowest `7k` bits. */
  function Short(v: bv32, k: nat): seq<bv8>
    requires 1 <= k <= 4
  {
    match k
    case 1 => [Last(v)]
    case 2 => [More(v), Last(v >> 7)]
    case 3 => [More(v), More(v >> 7), Last(v >> 14)]
    case _ => [More(v), More(v >> 7), More(v >> 14), Last(v >> 21)]
  }

  function Last(v: bv32): bv8 {
    (v & 0x7F) as bv8
  }

  function More(v: bv32): bv8 {
    ((v & 0x7F) | 0x80) as bv8
  }

  /** Nothing is set in the masked bits. */
  predicate Clear(v: bv32, mask: bv32) {
    v & mask == 0
  }

  /** The masked bits are all alike. */
  predicate Alike(v: bv32, mask: bv32) {
    v & mask == 0 || v & mask == mask
  }

  /** A number below 2^7k. */
  predicate FitsUnsigned(v: bv32, k: nat) {
    Clear(v, match k case 1 => 0xFFFF_FF80 case 2 => 0xFFFF_C000 case 3 => 0xFFE0_0000 case _ => 0xF000_0000)
  }

  /** A number from -2^(7k - 1) up to 2^(7k - 1), in two's complement. */
  predicate FitsSigned(v: bv32, k: nat) {
    Alike(v, match k case 1 => 0xFFFF_FFC0 case 2 => 0xFFFF_E000 case 3 => 0xFFF0_0000 case _ => 0xF800_0000)
  }

  lemma LastAndMore(v: bv32)
    ensures !Goes(Last(v)) && Goes(More(v))
  {
  }

  lemma Bits1(v: bv32)
    ensures Clear(v, 0xFFFF_FF80) ==> Low(Last(v)) == v
    ensures Alike(v, 0xFFFF_FFC0) ==> Extended(Last(v)) == v
  {
  }

  /** A number of seven bits, read either way. */
  lemma Short1(v: bv32)
    ensures IsLeb(Short(v, 1))
    ensures FitsUnsigned(v, 1) ==> Unsigned(Short(v, 1)) == v
    ensures FitsSigned(v, 1) ==> Signed(Short(v, 1)) == v
  {
    hide Or, Low, Times128, Extended, Last, More, Goes, Clear, Alike;
    var e := Short(v, 1);
    Bits1(v);
    LastAndMore(v);
    assert Unsigned(e) == Low(e[0]) && Signed(e) == Extended(e[0]);
  }

  lemma Bits2(v: bv32)
    ensures Clear(v, 0xFFFF_C000) ==> Or(Low(More(v)), Times128(Low(Last(v >> 7)))) == v
    ensures Alike(v, 0xFFFF_E000) ==> Or(Low(More(v)), Times128(Extended(Last(v >> 7)))) == v
  {
  }

  /** A number of 14 bits, read either way. */
  lemma Short2(v: bv32)
    ensures IsLeb(Short(v, 2))
    ensures FitsUnsigned(v, 2) ==> Unsigned(Short(v, 2)) == v
    ensures FitsSigned(v, 2) ==> Signed(Short(v, 2)) == v
  {
    hide Or, Low, Times128, Extended, Last, More, Goes, Clear, Alike;
    var e := Short(v, 2);
    Bits2(v);
    LastAndMore(v);
    LastAndMore(v >> 7);
    assert Unsigned(e[1..]) == Low(e[1]) && Signed(e[1..]) == Extended(e[1]);
    assert e[1..] == e[1..];
    assert Unsigned(e) == Or(Low(e[0]), Times128(Unsigned(e[1..])));
    assert Signed(e) == Or(Low(e[0]), Times128(Signed(e[1..])));
  }

  lemma Bits3(v: bv32)
    ensures Clear(v, 0xFFE0_0000) ==>
              Or(Low(More(v)), Times128(Or(Low(More(v >> 7)), Times128(Low(Last(v >> 14)))))) == v
    ensures Alike(v, 0xFFF0_0000) ==>
              Or(Low(More(v)), Times128(Or(Low(More(v >> 7)), Times128(Extended(Last(v >> 14)))))) == v
  {
  }

  /** A number of 21 bits, read either way. */
  lemma Short3(v: bv32)
    ensures IsLeb(Short(v, 3))
    ensures FitsUnsigned(v, 3) ==> Unsigned(Short(v, 3)) == v
    ensures FitsSigned(v, 3) ==> Signed(Short(v, 3)) == v
  {
    hide Or, Low, Times128, Extended, Last, More, Goes, Clear, Alike;
    var e := Short(v, 3);
    Bits3(v);
    LastAndMore(v);
    LastAndMore(v >> 7);
    LastAndMore(v >> 14);
    assert Unsigned(e[2..]) == Low(e[2]) && Signed(e[2..]) == Extended(e[2]);
    assert e[1..][1..] == e[2..];
    assert Unsigned(e[1..]) == Or(Low(e[1]), Times128(Unsigned(e[2..])));
    assert Signed(e[1..]) == Or(Low(e[1]), Times128(Signed(e[2..])));
    assert e[1..] == e[1..];
    assert Unsigned(e) == Or(Low(e[0]), Times128(Unsigned(e[1..])));
    assert Signed(e) == Or(Low(e[0]), Times128(Signed(e[1..])));
  }

  lemma Bits4(v: bv32)
    ensures Clear(v, 0xF000_0000) ==>
              Or(Low(More(v)), Times128(Or(Low(More(v >> 7)), Times128(Or(Low(More(v >> 14)), Times128(Low(Last(v >> 21)))))))) == v
    ensures Alike(v, 0xF800_0000) ==>
              Or(Low(More(v)), Times128(Or(Low(More(v >> 7)), Times128(Or(Low(More(v >> 14)), Times128(Extended(Last(v >> 21)))))))) == v
  {
  }

  /** A number of 28 bits, read either way. */
  lemma Short4(v: bv32)
    ensures IsLeb(Short(v, 4))
    ensures FitsUnsigned(v, 4) ==> Unsigned(Short(v, 4)) == v
    ensures FitsSigned(v, 4) ==> Signed(Short(v, 4)) == v
  {
    hide Or, Low, Times128, Extended, Last, More, Goes, Clear, Alike;
    var e := Short(v, 4);
    Bits4(v);
    LastAndMore(v);
    LastAndMore(v >> 7);
    LastAndMore(v >> 14);
    LastAndMore(v >> 21);
    assert Unsigned(e[3..]) == Low(e[3]) && Signed(e[3..]) == Extended(e[3]);
    assert e[2..][1..] == e[3..];
    assert Unsigned(e[2..]) == Or(Low(e[2]), Times128(Unsigned(e[3..])));
    assert Signed(e[2..]) == Or(Low(e[2]), Times128(Signed(e[3..])));
    assert e[1..][1..] == e[2..];
    assert Unsigned(e[1..]) == Or(Low(e[1]), Times128(Unsigned(e[2..])));
    assert Signed(e[1..]) == Or(Low(e[1]), Times128(Signed(e[2..])));
    assert e[1..] == e[1..];
    assert Unsigned(e) == Or(Low(e[0]), Times128(Unsigned(e[1..])));
    assert Signed(e) == Or(Low(e[0]), Times128(Signed(e[1..])));
  }

  // ── The decoders ───────────────────────────────────────────────────────────

  /** `v << 7k` */
  function Shifted(v: bv32, k: nat): bv32
    requires k <= 4
  {
    match k
    case 0 => v
    case 1 => v << 7
    case 2 => v << 14
    case 3 => v << 21
    case _ => v << 28
  }

  /** All ones above the bits read so far, when there are any above them. */
  function SignBits(k: nat): bv32
    requires 1 <= k <= 5
  {
    match k
    case 1 => 0xFFFF_FF80
    case 2 => 0xFFFF_C000
    case 3 => 0xFFE0_0000
    case 4 => 0xF000_0000
    case _ => 0
  }

  /** The loop of `uleb_raw` after `k` bytes with `r` gathered: the value and the bytes read. */
  function UlebFrom(b: seq<bv8>, p: nat, r: bv32, k: nat): (res: (bv32, nat))
    requires k <= 4
    ensures res.1 >= 1
    decreases 5 - k
  {
    if p + k >= |b| then (0, 1)
    else
      var r' := Or(r, Shifted(Low(b[p + k]), k));
      if !Goes(b[p + k]) || k == 4 then (r', k + 1) else UlebFrom(b, p, r', k + 1)
  }

  function SlebFrom(b: seq<bv8>, p: nat, r: bv32, k: nat): (res: (bv32, nat))
    requires k <= 4
    ensures res.1 >= 1
    decreases 5 - k
  {
    if p + k >= |b| then (0, 1)
    else
      var r' := Or(r, Shifted(Low(b[p + k]), k));
      if !Goes(b[p + k]) then (if Minus(b[p + k]) then Or(r', SignBits(k + 1)) else r', k + 1)
      else if k == 4 then (r', k + 1)
      else SlebFrom(b, p, r', k + 1)
  }

  method UlebRaw(b: seq<bv8>, start: nat) returns (r: bv32, n: nat)
    ensures (r, n) == UlebFrom(b, start, 0, 0)
  {
    hide Shifted, Low, Or, Goes, Minus, Times128;
    r := 0;
    var k := 0;
    while true
      invariant k <= 4 && UlebFrom(b, start, 0, 0) == UlebFrom(b, start, r, k)
      decreases 5 - k
    {
      if start + k >= |b| {
        return 0, 1;
      }
      var byte := b[start + k];
      r := Or(r, Shifted(Low(byte), k));
      if !Goes(byte) || k == 4 {
        return r, k + 1;
      }
      k := k + 1;
    }
  }

  method SlebRaw(b: seq<bv8>, start: nat) returns (r: bv32, n: nat)
    ensures (r, n) == SlebFrom(b, start, 0, 0)
  {
    hide Shifted, Low, SignBits, Or, Goes, Minus;
    r := 0;
    var k := 0;
    while true
      invariant k <= 4 && SlebFrom(b, start, 0, 0) == SlebFrom(b, start, r, k)
      decreases 5 - k
    {
      if start + k >= |b| {
        return 0, 1;
      }
      var byte := b[start + k];
      r := Or(r, Shifted(Low(byte), k));
      if !Goes(byte) {
        if Minus(byte) {
          r := Or(r, SignBits(k + 1));
        }
        return r, k + 1;
      }
      if k == 4 {
        return r, k + 1;
      }
      k := k + 1;
    }
  }

  // ── Decoding gives the grammar's value ─────────────────────────────────────

  lemma Distribute0(r: bv32, low: bv32, rest: bv32)
    ensures Or(Or(r, Shifted(low, 0)), Shifted(rest, 1)) == Or(r, Shifted(Or(low, Times128(rest)), 0))
  {
  }

  lemma Distribute1(r: bv32, low: bv32, rest: bv32)
    ensures Or(Or(r, Shifted(low, 1)), Shifted(rest, 2)) == Or(r, Shifted(Or(low, Times128(rest)), 1))
  {
  }

  lemma Distribute2(r: bv32, low: bv32, rest: bv32)
    ensures Or(Or(r, Shifted(low, 2)), Shifted(rest, 3)) == Or(r, Shifted(Or(low, Times128(rest)), 2))
  {
  }

  lemma Distribute3(r: bv32, low: bv32, rest: bv32)
    ensures Or(Or(r, Shifted(low, 3)), Shifted(rest, 4)) == Or(r, Shifted(Or(low, Times128(rest)), 3))
  {
  }

  lemma Distribute(r: bv32, low: bv32, rest: bv32, k: nat)
    requires k <= 3
    ensures Or(Or(r, Shifted(low, k)), Shifted(rest, k + 1)) == Or(r, Shifted(Or(low, Times128(rest)), k))
  {
    hide Or, Shifted, Times128;
    match k
    case 0 => Distribute0(r, low, rest);
    case 1 => Distribute1(r, low, rest);
    case 2 => Distribute2(r, low, rest);
    case 3 => Distribute3(r, low, rest);
  }

  lemma SignedEnd0(r: bv32, b: bv8)
    ensures Or(r, Shifted(Extended(b), 0)) ==
            if Minus(b) then Or(Or(r, Shifted(Low(b), 0)), SignBits(1)) else Or(r, Shifted(Low(b), 0))
  {
  }

  lemma SignedEnd1(r: bv32, b: bv8)
    ensures Or(r, Shifted(Extended(b), 1)) ==
            if Minus(b) then Or(Or(r, Shifted(Low(b), 1)), SignBits(2)) else Or(r, Shifted(Low(b), 1))
  {
  }

  lemma SignedEnd2(r: bv32, b: bv8)
    ensures Or(r, Shifted(Extended(b), 2)) ==
            if Minus(b) then Or(Or(r, Shifted(Low(b), 2)), SignBits(3)) else Or(r, Shifted(Low(b), 2))
  {
  }

  lemma SignedEnd3(r: bv32, b: bv8)
    ensures Or(r, Shifted(Extended(b), 3)) ==
            if Minus(b) then Or(Or(r, Shifted(Low(b), 3)), SignBits(4)) else Or(r, Shifted(Low(b), 3))
  {
  }

  lemma SignedEnd4(r: bv32, b: bv8)
    ensures Or(r, Shifted(Extended(b), 4)) ==
            if Minus(b) then Or(Or(r, Shifted(Low(b), 4)), SignBits(5)) else Or(r, Shifted(Low(b), 4))
  {
  }

  lemma SignedEnd(r: bv32, b: bv8, k: nat)
    requires k <= 4
    ensures Or(r, Shifted(Extended(b), k)) ==
            if Minus(b) then Or(Or(r, Shifted(Low(b), k)), SignBits(k + 1)) else Or(r, Shifted(Low(b), k))
  {
    hide Or, Shifted, SignBits, Extended, Low, Minus;
    match k
    case 0 => SignedEnd0(r, b);
    case 1 => SignedEnd1(r, b);
    case 2 => SignedEnd2(r, b);
    case 3 => SignedEnd3(r, b);
    case 4 => SignedEnd4(r, b);
  }

  ghost predicate Holds(b: seq<bv8>, p: nat, bs: seq<bv8>) {
    p + |bs| <= |b| && b[p..p + |bs|] == bs
  }

  lemma {:induction false} UlebRest(b: seq<bv8>, p: nat, bs: seq<bv8>, r: bv32, k: nat)
    requires IsLeb(bs) && Holds(b, p, bs) && k < |bs|
    ensures UlebFrom(b, p, r, k) == (Or(r, Shifted(Unsigned(bs[k..]), k)), |bs|)
    decreases |bs| - k
  {
    hide Shifted, Low, Or, Goes, Minus, Times128;
    assert b[p + k] == b[p..p + |bs|][k];
    if k < |bs| - 1 {
      UlebRest(b, p, bs, Or(r, Shifted(Low(bs[k]), k)), k + 1);
      assert bs[k..][1..] == bs[k + 1..];
      Distribute(r, Low(bs[k]), Unsigned(bs[k + 1..]), k);
    }
  }

  lemma {:induction false} SlebRest(b: seq<bv8>, p: nat, bs: seq<bv8>, r: bv32, k: nat)
    requires IsLeb(bs) && Holds(b, p, bs) && k < |bs|
    ensures SlebFrom(b, p, r, k) == (Or(r, Shifted(Signed(bs[k..]), k)), |bs|)
    decreases |bs| - k
  {
    hide Shifted, Low, SignBits, Extended, Or, Goes, Minus, Times128;
    assert b[p + k] == b[p..p + |bs|][k];
    if k < |bs| - 1 {
      SlebRest(b, p, bs, Or(r, Shifted(Low(bs[k]), k)), k + 1);
      assert bs[k..][1..] == bs[k + 1..];
      Distribute(r, Low(bs[k]), Signed(bs[k + 1..]), k);
    } else {
      SignedEnd(r, bs[k], k);
    }
  }

  /** Wherever an encoding stands, and whether minimal or padded, the unsigned decoder returns
      its value and its length. */
  lemma UlebDecodes(b: seq<bv8>, p: nat, bs: seq<bv8>)
    requires IsLeb(bs) && Holds(b, p, bs)
    ensures UlebFrom(b, p, 0, 0) == (Unsigned(bs), |bs|)
  {
    hide Or, Shifted, UlebFrom, Unsigned;
    UlebRest(b, p, bs, 0, 0);
    assert bs[0..] == bs;
    ZeroOr(Unsigned(bs));
  }

  lemma SlebDecodes(b: seq<bv8>, p: nat, bs: seq<bv8>)
    requires IsLeb(bs) && Holds(b, p, bs)
    ensures SlebFrom(b, p, 0, 0) == (Signed(bs), |bs|)
  {
    hide Or, Shifted, SlebFrom, Signed;
    SlebRest(b, p, bs, 0, 0);
    assert bs[0..] == bs;
    ZeroOr(Signed(bs));
  }

  lemma ZeroOr(v: bv32)
    ensures Or(0, Shifted(v, 0)) == v
  {
  }

  /** A number that fits in `k` bytes is read back from them, wherever they stand. */
  lemma ShortDecodes(b: seq<bv8>, p: nat, v: bv32, k: nat)
    requires 1 <= k <= 4 && Holds(b, p, Short(v, k))
    ensures FitsUnsigned(v, k) ==> UlebFrom(b, p, 0, 0) == (v, k)
    ensures FitsSigned(v, k) ==> SlebFrom(b, p, 0, 0) == (v, k)
  {
    hide UlebFrom, SlebFrom, Unsigned, Signed, Last, More, Goes, Holds, FitsUnsigned, FitsSigned;
    match k {
      case 1 => Short1(v);
      case 2 => Short2(v);
      case 3 => Short3(v);
      case 4 => Short4(v);
    }
    UlebDecodes(b, p, Short(v, k));
    SlebDecodes(b, p, Short(v, k));
  }

  /** Bytes that end before the number does read as 0, of length 1. */
  lemma {:induction false} CutShort(b: seq<bv8>, p: nat, r: bv32, k: nat)
    requires k <= 4 && p + k <= |b| < p + 5 && forall i :: p + k <= i < |b| ==> Goes(b[i])
    ensures UlebFrom(b, p, r, k) == SlebFrom(b, p, r, k) == (0, 1)
    decreases 5 - k
  {
    hide Shifted, Low, Or, Goes, SignBits;
    if p + k < |b| {
      CutShort(b, p, Or(r, Shifted(Low(b[p + k]), k)), k + 1);
    }
  }

  lemma {:induction false} OverlongRest(b: seq<bv8>, p: nat, bs: seq<bv8>, r: bv32, k: nat)
    requires |bs| == 5 && Holds(b, p, bs) && k < 5 && forall i :: 0 <= i < 5 ==> Goes(bs[i])
    ensures UlebFrom(b, p, r, k) == SlebFrom(b, p, r, k) == (Or(r, Shifted(Unsigned(bs[k..]), k)), 5)
    decreases 5 - k
  {
    hide Shifted, Low, Or, Goes, SignBits, Minus, Times128;
    assert b[p + k] == b[p..p + |bs|][k];
    if k < 4 {
      OverlongRest(b, p, bs, Or(r, Shifted(Low(bs[k]), k)), k + 1);
      assert bs[k..][1..] == bs[k + 1..];
      Distribute(r, Low(bs[k]), Unsigned(bs[k + 1..]), k);
    }
  }

  /** A fifth byte that asks for more is the last all the same, and is read without a sign. */
  lemma Overlong(b: seq<bv8>, p: nat, bs: seq<bv8>)
    requires |bs| == 5 && Holds(b, p, bs) && forall i :: 0 <= i < 5 ==> Goes(bs[i])
    ensures UlebFrom(b, p, 0, 0) == SlebFrom(b, p, 0, 0) == (Unsigned(bs), 5)
  {
    hide Or, Shifted, UlebFrom, SlebFrom, Unsigned;
    OverlongRest(b, p, bs, 0, 0);
    assert bs[0..] == bs;
    ZeroOr(Unsigned(bs));
  }
}
