/** Octets and the few operations on byte strings the file formats share. */
module Bytes {

  type Byte = b: int | 0 <= b < 256

  function Zeros(n: nat): (r: seq<Byte>)
    ensures |r| == n && forall i :: 0 <= i < n ==> r[i] == 0
  {
    seq(n, _ => 0)
  }

  /** `h` with `b` written over it from `at` on. */
  function Put(h: seq<Byte>, at: nat, b: seq<Byte>): (r: seq<Byte>)
    requires at + |b| <= |h|
    ensures |r| == |h|
  {
    h[..at] + b + h[at + |b|..]
  }

  lemma PutAside(h: seq<Byte>, at: nat, b: seq<Byte>, i: nat, j: nat)
    requires at + |b| <= |h| && i <= j <= |h| && (j <= at || at + |b| <= i)
    ensures Put(h, at, b)[i..j] == h[i..j]
  {
  }

  lemma PutThere(h: seq<Byte>, at: nat, b: seq<Byte>)
    requires at + |b| <= |h|
    ensures Put(h, at, b)[at..at + |b|] == b
  {
  }

  lemma PutNext(h: seq<Byte>, at: nat, b: seq<Byte>, i: nat)
    requires at + |b| <= |h| && i < |b|
    ensures Put(h, at, b[..i])[at + i := b[i]] == Put(h, at, b[..i + 1])
  {
  }

  lemma PutNone(h: seq<Byte>, at: nat)
    requires at <= |h|
    ensures Put(h, at, []) == h
  {
  }

  function Sum(s: seq<Byte>): (r: nat)
    ensures r <= 255 * |s|
  {
    if s == [] then 0 else Sum(s[..|s| - 1]) + s[|s| - 1]
  }

  lemma {:induction false} SumAppend(a: seq<Byte>, b: seq<Byte>)
    ensures Sum(a + b) == Sum(a) + Sum(b)
  {
    if b == [] {
      assert a + b == a;
    } else {
      var c := b[..|b| - 1];
      SumAppend(a, c);
      assert (a + b)[..|a + b| - 1] == a + c;
    }
  }

  lemma SumPart(h: seq<Byte>, i: nat, j: nat)
    requires i <= j <= |h|
    ensures Sum(h[i..j]) <= Sum(h)
  {
    assert h == h[..i] + h[i..j] + h[j..];
    SumAppend(h[..i] + h[i..j], h[j..]);
    SumAppend(h[..i], h[i..j]);
  }

  lemma SumPut(h: seq<Byte>, at: nat, b: seq<Byte>)
    requires at + |b| <= |h|
    ensures Sum(Put(h, at, b)) + Sum(h[at..at + |b|]) == Sum(h) + Sum(b)
  {
    var l, m, r := h[..at], h[at..at + |b|], h[at + |b|..];
    assert h == l + m + r;
    SumAppend(l + m, r);
    SumAppend(l, m);
    SumAppend(l + b, r);
    SumAppend(l, b);
  }

  // ── Octal fields ───────────────────────────────────────────────────────────

  function Power8(n: nat): (r: nat)
    ensures r > 0
  {
    if n == 0 then 1 else 8 * Power8(n - 1)
  }

  /** `n` in exactly `width` octal digits. */
  function Octal(n: nat, width: nat): (r: seq<Byte>)
    ensures |r| == width
    ensures forall i :: 0 <= i < width ==> '0' as int <= r[i] <= '7' as int
  {
    if width == 0 then [] else Octal(n / 8, width - 1) + [n % 8 + '0' as int]
  }

  predicate IsEnd(b: Byte) {
    b == 0 || b == ' ' as int
  }

  /** Octal text as formatting prints it: at least `width` digits, and as many as it takes. */
  function OctalText(n: nat, width: nat): seq<Byte>
    decreases n, width
  {
    if n == 0 && width == 0 then []
    else OctalText(n / 8, if width == 0 then 0 else width - 1) + [n % 8 + '0' as int]
  }

  /** The text fills its field exactly when the number is small enough. */
  lemma {:induction false} OctalTextFits(n: nat, width: nat)
    ensures |OctalText(n, width)| >= width
    ensures |OctalText(n, width)| == width <==> n < Power8(width)
    ensures n < Power8(width) ==> OctalText(n, width) == Octal(n, width)
    decreases width
  {
    if width > 0 {
      OctalTextFits(n / 8, width - 1);
    }
  }

  predicate IsOctal(b: Byte) {
    '0' as int <= b <= '7' as int
  }

  /** The value of the octal digits up to the first NUL or space, other bytes skipped. */
  function ParseOctal(s: seq<Byte>, val: nat): nat {
    if s == [] || IsEnd(s[0]) then val
    else ParseOctal(s[1..], if IsOctal(s[0]) then val * 8 + (s[0] - '0' as int) else val)
  }

  lemma {:induction false} ParseAppend(a: seq<Byte>, b: seq<Byte>, val: nat)
    requires forall i :: 0 <= i < |a| ==> IsOctal(a[i])
    ensures ParseOctal(a + b, val) == ParseOctal(b, ParseOctal(a, val))
  {
    if a == [] {
      assert a + b == b;
    } else {
      assert (a + b)[1..] == a[1..] + b;
      ParseAppend(a[1..], b, val * 8 + (a[0] - '0' as int));
    }
  }

  /** Reading back a field written with enough digits gives the number. */
  lemma {:induction false} OctalRoundTrip(n: nat, width: nat)
    requires n < Power8(width)
    ensures ParseOctal(Octal(n, width), 0) == n
  {
    if width > 0 {
      OctalRoundTrip(n / 8, width - 1);
      ParseAppend(Octal(n / 8, width - 1), [n % 8 + '0' as int], 0);
    }
  }

  /** A number ends at a NUL or a space, whatever follows. */
  lemma ParseStops(n: nat, width: nat, end: Byte, rest: seq<Byte>)
    requires n < Power8(width) && (end == 0 || end == 0x20)
    ensures ParseOctal(Octal(n, width) + [end] + rest, 0) == n
  {
    hide Octal, Power8;
    var tail := [end] + rest;
    assert Octal(n, width) + [end] + rest == Octal(n, width) + tail;
    OctalRoundTrip(n, width);
    ParseAppend(Octal(n, width), tail, 0);
  }

  /** Before that, a byte that is no octal digit is passed over. */
  lemma {:induction false} ParseSkips(a: seq<Byte>, b: Byte, rest: seq<Byte>, val: nat)
    requires b != 0 && b != 0x20 && !(0x30 <= b <= 0x37)
    ensures ParseOctal(a + [b] + rest, val) == ParseOctal(a + rest, val)
  {
    if a == [] {
      assert (a + [b] + rest)[1..] == rest && a + rest == rest;
    } else {
      assert (a + [b] + rest)[1..] == a[1..] + [b] + rest;
      assert (a + rest)[1..] == a[1..] + rest;
      assert (a + [b] + rest)[0] == a[0] == (a + rest)[0];
      ParseSkips(a[1..], b, rest, if IsOctal(a[0]) then val * 8 + (a[0] - '0' as int) else val);
    }
  }

  method ParseOctalField(s: seq<Byte>) returns (val: nat)
    ensures val == ParseOctal(s, 0)
  {
    val := 0;
    var i := 0;
    while i < |s|
      invariant 0 <= i <= |s|
      invariant ParseOctal(s, 0) == ParseOctal(s[i..], val)
    {
      if IsEnd(s[i]) {
        break;
      }
      if IsOctal(s[i]) {
        val := val * 8 + (s[i] - '0' as int);
      }
      assert s[i..][1..] == s[i + 1..];
      i := i + 1;
    }
  }
}
