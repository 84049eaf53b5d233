/** The text check of `core::str::from_utf8`, against the encoding the Unicode Standard defines
    (table 3-6, "UTF-8 Bit Distribution"). */
module Utf8Text {

  import opened Bytes

  predicate Continues(b: Byte) {
    0x80 <= b < 0xC0
  }

  /** The length of the well-formed character the bytes begin with, or 0 for none. */
  function Width(s: seq<Byte>): (n: nat)
    ensures n <= |s|
  {
    if s == [] then 0
    else if s[0] < 0x80 then 1
    else if 0xC2 <= s[0] < 0xE0 then
      if |s| >= 2 && Continues(s[1]) then 2 else 0
    else if 0xE0 <= s[0] < 0xF0 then
      if |s| >= 3 && Continues(s[1]) && Continues(s[2])
         && (s[0] == 0xE0 ==> s[1] >= 0xA0) && (s[0] == 0xED ==> s[1] < 0xA0) then 3 else 0
    else if 0xF0 <= s[0] < 0xF5 then
      if |s| >= 4 && Continues(s[1]) && Continues(s[2]) && Continues(s[3])
         && (s[0] == 0xF0 ==> s[1] >= 0x90) && (s[0] == 0xF4 ==> s[1] < 0x90) then 4 else 0
    else 0
  }

  predicate Utf8(s: seq<Byte>) {
    s == [] || (Width(s) > 0 && Utf8(s[Width(s)..]))
  }

  /** A code point that is not a surrogate. */
  type Scalar = c: nat | c < 0xD800 || 0xE000 <= c < 0x11_0000

  function Encoded(c: Scalar): (r: seq<Byte>)
    ensures 1 <= |r| <= 4
  {
    if c < 0x80 then [c]
    else if c < 0x800 then [0xC0 + c / 64, 0x80 + c % 64]
    else if c < 0x1_0000 then [0xE0 + c / 4096, 0x80 + c / 64 % 64, 0x80 + c % 64]
    else [0xF0 + c / 0x4_0000, 0x80 + c / 4096 % 64, 0x80 + c / 64 % 64, 0x80 + c % 64]
  }

  function EncodedAll(cs: seq<Scalar>): seq<Byte> {
    if cs == [] then [] else Encoded(cs[0]) + EncodedAll(cs[1..])
  }

  ghost predicate IsText(s: seq<Byte>) {
    exists cs :: EncodedAll(cs) == s
  }

  /** The second byte of a three-byte form is what the special first bytes ask for. */
  lemma ThreeBytes(c: Scalar)
    requires 0x800 <= c < 0x1_0000
    ensures c / 4096 < 16 && (c / 4096 == 0 ==> c / 64 % 64 >= 32) && (c / 4096 == 13 ==> c / 64 % 64 < 32)
  {
  }

  lemma FourBytes(c: Scalar)
    requires 0x1_0000 <= c
    ensures c / 0x4_0000 < 5
    ensures (c / 0x4_0000 == 0 ==> c / 4096 % 64 >= 16) && (c / 0x4_0000 == 4 ==> c / 4096 % 64 < 16)
  {
  }

  /** The bytes after the first character do not matter. */
  lemma WidthOfPrefix(s: seq<Byte>, rest: seq<Byte>)
    requires Width(s) > 0
    ensures Width(s + rest) == Width(s)
  {
  }

  lemma WidthOfEncoded(c: Scalar)
    ensures Width(Encoded(c)) == |Encoded(c)|
  {
    if c >= 0x1_0000 {
      FourBytes(c);
    } else if c >= 0x800 {
      ThreeBytes(c);
    }
  }

  lemma {:induction false} AcceptsAll(cs: seq<Scalar>)
    ensures Utf8(EncodedAll(cs))
  {
    hide Encoded, Width;
    if cs != [] {
      var rest := EncodedAll(cs[1..]);
      WidthOfEncoded(cs[0]);
      WidthOfPrefix(Encoded(cs[0]), rest);
      assert (Encoded(cs[0]) + rest)[|Encoded(cs[0])|..] == rest;
      AcceptsAll(cs[1..]);
    }
  }

  /** The character well-formed bytes begin with. */
  function FirstScalar(s: seq<Byte>): (c: nat)
    requires Width(s) > 0
  {
    match Width(s)
    case 1 => s[0]
    case 2 => (s[0] as int - 0xC0) * 64 + (s[1] as int - 0x80)
    case 3 => (s[0] as int - 0xE0) * 4096 + (s[1] as int - 0x80) * 64 + (s[2] as int - 0x80)
    case _ => (s[0] as int - 0xF0) * 0x4_0000 + (s[1] as int - 0x80) * 4096 + (s[2] as int - 0x80) * 64 + (s[3] as int - 0x80)
  }

  lemma Digits(a: nat, b: nat, c: nat, d: nat)
    requires b < 64 && c < 64 && d < 64
    ensures var n := a * 0x4_0000 + b * 4096 + c * 64 + d;
            n / 0x4_0000 == a && n / 4096 % 64 == b && n / 64 % 64 == c && n % 64 == d
            && n / 4096 == a * 64 + b && n / 64 == a * 4096 + b * 64 + c
  {
    var n := a * 0x4_0000 + b * 4096 + c * 64 + d;
    assert n / 64 == a * 4096 + b * 64 + c;
    assert n / 4096 == a * 64 + b;
  }

  lemma EncodesFirst(s: seq<Byte>)
    requires Width(s) > 0
    ensures var c := FirstScalar(s);
            (c < 0xD800 || 0xE000 <= c < 0x11_0000) && Encoded(c) == s[..Width(s)]
  {
    var n := Width(s);
    if n == 2 {
      Digits(0, 0, s[0] as int - 0xC0, s[1] as int - 0x80);
    } else if n == 3 {
      Digits(0, s[0] as int - 0xE0, s[1] as int - 0x80, s[2] as int - 0x80);
    } else if n == 4 {
      Digits(s[0] as int - 0xF0, s[1] as int - 0x80, s[2] as int - 0x80, s[3] as int - 0x80);
    }
  }

  lemma {:induction false} Decodes(s: seq<Byte>)
    requires Utf8(s)
    ensures IsText(s)
  {
    hide Encoded, FirstScalar, Width;
    if s == [] {
      assert EncodedAll([]) == s;
    } else {
      var n := Width(s);
      EncodesFirst(s);
      var c: Scalar := FirstScalar(s);
      Decodes(s[n..]);
      var cs: seq<Scalar> :| EncodedAll(cs) == s[n..];
      assert ([c] + cs)[1..] == cs;
      assert EncodedAll([c] + cs) == s[..n] + s[n..] == s;
    }
  }

  /** The byte checks accept exactly the encodings of sequences of scalar values: no overlong
      form, no surrogate, nothing past the last code point, nothing cut short. */
  lemma Utf8IsText(s: seq<Byte>)
    ensures Utf8(s) <==> IsText(s)
  {
    hide Utf8, EncodedAll;
    if Utf8(s) {
      Decodes(s);
    } else if IsText(s) {
      var cs :| EncodedAll(cs) == s;
      AcceptsAll(cs);
    }
  }
}
