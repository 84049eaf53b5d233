/** The build-time USTAR writer and the kernel's USTAR reader (IEEE Std 1003.1, pax utility,
    "ustar Interchange Format"), and the proof that reading undoes writing. */
module Ustar {

  import opened Options
  import opened Bytes
  import opened Utf8Text

  const BLOCK: nat := 512

  datatype Entry = Entry(name: seq<Byte>, data: seq<Byte>)

  function Ascii(s: string): (r: seq<Byte>)
    requires forall i :: 0 <= i < |s| ==> s[i] < '~'
    ensures |r| == |s|
  {
    seq(|s|, i requires 0 <= i < |s| => s[i] as int)
  }

  // ── The writer ─────────────────────────────────────────────────────────────

  function NameField(name: seq<Byte>): (r: seq<Byte>)
    ensures |r| <= 100
  {
    if |name| > 100 then name[..100] else name
  }

  /** Bytes to write at an offset. */
  datatype Field = Field(at: nat, bytes: seq<Byte>)

  predicate Fit(fs: seq<Field>, n: nat) {
    forall k :: 0 <= k < |fs| ==> fs[k].at + |fs[k].bytes| <= n
  }

  function PutAll(h: seq<Byte>, fs: seq<Field>): (r: seq<Byte>)
    requires Fit(fs, |h|)
    ensures |r| == |h|
    decreases |fs|
  {
    if fs == [] then h else PutAll(Put(h, fs[0].at, fs[0].bytes), fs[1..])
  }

  /** Name, mode, owner, group, size, time, type, magic and version. */
  function HeaderFields(name: seq<Byte>, size: nat): (fs: seq<Field>)
    ensures Fit(fs, BLOCK)
  {
    [Field(0, NameField(name)), Field(100, Ascii("0000755")), Field(108, Ascii("0000000")),
     Field(116, Ascii("0000000")), Field(124, Octal(size, 11) + Ascii(" ")), Field(136, Ascii("00000000000")),
     Field(156, Ascii("0")), Field(257, Ascii("ustar")), Field(262, [0] + Ascii("00"))]
  }

  /** The header before its checksum: each field written over zeros. */
  function Fields(name: seq<Byte>, size: nat): (h: seq<Byte>)
    ensures |h| == BLOCK
  {
    PutAll(Zeros(BLOCK), HeaderFields(name, size))
  }

  /** The byte sum with the checksum field counted as spaces. */
  function Checksum(h: seq<Byte>): (r: nat)
    requires |h| == BLOCK
  {
    SumPart(h, 148, 156);
    Sum(h) + 8 * 32 - Sum(h[148..156])
  }

  function Header(name: seq<Byte>, size: nat): (h: seq<Byte>)
    ensures |h| == BLOCK
  {
    var h := Fields(name, size);
    Put(h, 148, Octal(Checksum(h), 6) + [0] + Ascii(" "))
  }

  function Padding(n: nat): nat {
    (BLOCK - n % BLOCK) % BLOCK
  }

  function Record(e: Entry): seq<Byte> {
    Header(e.name, |e.data|) + e.data + Zeros(Padding(|e.data|))
  }

  function Records(es: seq<Entry>): seq<Byte> {
    if es == [] then [] else Record(es[0]) + Records(es[1..])
  }

  function Archive(es: seq<Entry>): seq<Byte> {
    Records(es) + Zeros(2 * BLOCK)
  }

  method CopyInto(hdr: array<Byte>, at: nat, b: seq<Byte>)
    requires at + |b| <= hdr.Length
    modifies hdr
    ensures hdr[..] == Put(old(hdr[..]), at, b)
  {
    hide Put;
    ghost var was := hdr[..];
    PutNone(was, at);
    var i := 0;
    while i < |b|
      invariant 0 <= i <= |b| && hdr[..] == Put(was, at, b[..i])
    {
      PutNext(was, at, b, i);
      hdr[at + i] := b[i];
      i := i + 1;
    }
    assert b[..i] == b;
  }

  method AddUp(s: seq<Byte>) returns (n: nat)
    ensures n == Sum(s)
  {
    n := 0;
    var i := 0;
    while i < |s|
      invariant 0 <= i <= |s| && n == Sum(s[..i])
    {
      assert s[..i + 1] == s[..i] + [s[i]];
      n := n + s[i];
      i := i + 1;
    }
    assert s[..i] == s;
  }

  method FillFields(hdr: array<Byte>, name: seq<Byte>, size: nat)
    requires hdr.Length == BLOCK && hdr[..] == Zeros(BLOCK)
    modifies hdr
    ensures hdr[..] == Fields(name, size)
  {
    hide Put, Octal, Ascii, HeaderFields;
    var fs := HeaderFields(name, size);
    var k := 0;
    assert fs[0..] == fs;
    while k < |fs|
      invariant 0 <= k <= |fs| && PutAll(hdr[..], fs[k..]) == Fields(name, size)
    {
      assert fs[k..][1..] == fs[k + 1..];
      CopyInto(hdr, fs[k].at, fs[k].bytes);
      k := k + 1;
    }
  }

  /** A size the field has room for. */
  predicate Sized(e: Entry) {
    |e.data| < Power8(11)
  }

  method MakeHeader(name: seq<Byte>, size: nat) returns (h: seq<Byte>)
    ensures h == Header(name, size)
  {
    hide Fields, Put, Octal, Ascii;
    var hdr := new Byte[BLOCK](_ => 0);
    assert hdr[..] == Zeros(BLOCK);
    FillFields(hdr, name, size);
    var all := AddUp(hdr[..]);
    var field := AddUp(hdr[148..156]);
    assert hdr[..][148..156] == hdr[148..156];
    SumPart(hdr[..], 148, 156);
    var sum := all + 8 * 32 - field;
    assert sum == Checksum(hdr[..]);
    CopyInto(hdr, 148, Octal(sum, 6) + [0] + Ascii(" "));
    h := hdr[..];
  }

  /** Copying a size of more than eleven digits into its field panics: `None`. */
  method Append(out: seq<Byte>, e: Entry) returns (r: Option<seq<Byte>>)
    ensures r == if Sized(e) then Some(out + Record(e)) else None
  {
    hide Header, OctalText, Power8;
    OctalTextFits(|e.data|, 11);
    if |OctalText(|e.data|, 11)| + 1 != 12 {
      return None;
    }
    var h := MakeHeader(e.name, |e.data|);
    var grown := out + h;
    grown := grown + e.data;
    grown := grown + Zeros(Padding(|e.data|));
    assert grown == out + Record(e);
    return Some(grown);
  }

  lemma {:induction false} RecordsGrow(es: seq<Entry>, k: nat)
    requires k < |es|
    ensures Records(es[..k + 1]) == Records(es[..k]) + Record(es[k])
  {
    hide Record;
    if k == 0 {
      assert es[..1][1..] == [];
    } else {
      RecordsGrow(es[1..], k - 1);
      assert es[..k + 1][1..] == es[1..][..k] && es[..k][1..] == es[1..][..k - 1];
    }
  }

  ghost predicate AllSized(es: seq<Entry>) {
    forall i :: 0 <= i < |es| ==> Sized(es[i])
  }

  method BuildTar(es: seq<Entry>) returns (r: Option<seq<Byte>>)
    ensures r == if AllSized(es) then Some(Archive(es)) else None
  {
    hide Record, Sized;
    var out: seq<Byte> := [];
    var i := 0;
    while i < |es|
      invariant 0 <= i <= |es| && out == Records(es[..i]) && AllSized(es[..i])
    {
      var next := Append(out, es[i]);
      if next.None? {
        return None;
      }
      out := next.value;
      RecordsGrow(es, i);
      i := i + 1;
    }
    assert es[..i] == es;
    return Some(out + Zeros(2 * BLOCK));
  }

  // ── The reader ─────────────────────────────────────────────────────────────

  function UpToNul(s: seq<Byte>): seq<Byte> {
    if s == [] || s[0] == 0 then [] else [s[0]] + UpToNul(s[1..])
  }

  /** A name that is not text reads as the empty name. */
  function NameIn(header: seq<Byte>): seq<Byte>
    requires |header| == BLOCK
  {
    var raw := UpToNul(header[..100]);
    if Utf8(raw) then raw else []
  }

  function SizeIn(header: seq<Byte>): nat
    requires |header| == BLOCK
  {
    ParseOctal(header[124..135], 0)
  }

  predicate IsFile(header: seq<Byte>)
    requires |header| == BLOCK
  {
    header[156] == '0' as int || header[156] == 0
  }

  /** Strips every leading "./". */
  function Bare(s: seq<Byte>): seq<Byte> {
    if |s| >= 2 && s[0] == '.' as int && s[1] == '/' as int then Bare(s[2..]) else s
  }

  /** Strips every leading "/". */
  function Unrooted(s: seq<Byte>): seq<Byte> {
    if s != [] && s[0] == '/' as int then Unrooted(s[1..]) else s
  }

  function Wanted(path: seq<Byte>): seq<Byte> {
    Bare(Unrooted(path))
  }

  function NextHeader(pos: nat, size: nat): (r: nat)
    ensures r > pos
  {
    pos + BLOCK + (size + BLOCK - 1) / BLOCK * BLOCK
  }

  predicate AtHeader(data: seq<Byte>, pos: nat) {
    pos + BLOCK <= |data| && data[pos] != 0
  }

  function FindFrom(data: seq<Byte>, pos: nat, want: seq<Byte>): Option<seq<Byte>>
    decreases |data| - pos
  {
    if !AtHeader(data, pos) then None
    else
      var header := data[pos..pos + BLOCK];
      var start, end := pos + BLOCK, pos + BLOCK + SizeIn(header);
      if IsFile(header) && Bare(NameIn(header)) == want && end <= |data| then Some(data[start..end])
      else FindFrom(data, NextHeader(pos, SizeIn(header)), want)
  }

  method FindInTar(data: seq<Byte>, path: seq<Byte>) returns (r: Option<seq<Byte>>)
    ensures r == FindFrom(data, 0, Wanted(path))
  {
    hide Utf8, Bare, UpToNul, Unrooted;
    var pos := 0;
    while pos + BLOCK <= |data|
      invariant FindFrom(data, pos, Wanted(path)) == FindFrom(data, 0, Wanted(path))
      decreases |data| - pos
    {
      var header := data[pos..pos + BLOCK];
      if header[0] == 0 {
        break;
      }
      var size := ParseOctalField(header[124..135]);
      var start, end := pos + BLOCK, pos + BLOCK + size;
      if IsFile(header) && Bare(NameIn(header)) == Wanted(path) && end <= |data| {
        return Some(data[start..end]);
      }
      pos := NextHeader(pos, size);
    }
    return None;
  }

  // ── Reading back a header ──────────────────────────────────────────────────

  /** What the format can hold. */
  predicate Storable(e: Entry) {
    0 < |e.name| <= 100 && 0 !in e.name && Utf8(e.name) && Sized(e)
  }

  /** What is left of a name once written and read: its first 100 bytes up to a NUL, or nothing
      when those are not text. */
  function Kept(name: seq<Byte>): seq<Byte> {
    var raw := UpToNul(NameField(name));
    if Utf8(raw) then raw else []
  }

  /** A header with no name, which the reader takes for the end of the archive. */
  predicate Ends(e: Entry) {
    e.name == [] || e.name[0] == 0
  }

  /** The entries as the reader meets them. */
  function AsRead(es: seq<Entry>): seq<Entry> {
    if es == [] || Ends(es[0]) then [] else [Entry(Kept(es[0].name), es[0].data)] + AsRead(es[1..])
  }

  lemma {:induction false} UpToNone(name: seq<Byte>)
    requires 0 !in name
    ensures UpToNul(name) == name
  {
    if name != [] {
      UpToNone(name[1..]);
    }
  }

  lemma {:induction false} StorableAsRead(es: seq<Entry>)
    requires forall i :: 0 <= i < |es| ==> Storable(es[i])
    ensures AsRead(es) == es
  {
    hide Utf8, Power8;
    if es != [] {
      UpToNone(es[0].name);
      StorableAsRead(es[1..]);
    }
  }

  lemma {:induction false} AsReadUpTo(es: seq<Entry>, k: nat)
    requires k < |es| && Ends(es[k])
    ensures AsRead(es) == AsRead(es[..k])
  {
    hide Kept;
    if k > 0 && !Ends(es[0]) {
      AsReadUpTo(es[1..], k - 1);
      assert es[1..][..k - 1] == es[..k][1..];
    }
  }

  lemma {:induction false} UpToPadding(name: seq<Byte>, n: nat)
    ensures UpToNul(name + Zeros(n)) == UpToNul(name)
  {
    if name == [] {
      assert name + Zeros(n) == Zeros(n);
    } else if name[0] != 0 {
      assert (name + Zeros(n))[1..] == name[1..] + Zeros(n);
      UpToPadding(name[1..], n);
    }
  }

  /** The checksum lies apart from every field the reader looks at. */
  lemma HeaderKeepsFields(name: seq<Byte>, size: nat, i: nat, j: nat)
    requires i <= j <= BLOCK && (j <= 148 || 156 <= i)
    ensures Header(name, size)[i..j] == Fields(name, size)[i..j]
  {
    hide Fields, Put, Octal, Sum;
    var h := Fields(name, size);
    PutAside(h, 148, Octal(Checksum(h), 6) + [0] + Ascii(" "), i, j);
  }

  /** A stretch no field touches stays. */
  lemma {:induction false} PutAllAside(h: seq<Byte>, fs: seq<Field>, i: nat, j: nat)
    requires Fit(fs, |h|) && i <= j <= |h|
    requires forall k :: 0 <= k < |fs| ==> j <= fs[k].at || fs[k].at + |fs[k].bytes| <= i
    ensures PutAll(h, fs)[i..j] == h[i..j]
    decreases |fs|
  {
    hide Put;
    if fs != [] {
      PutAside(h, fs[0].at, fs[0].bytes, i, j);
      PutAllAside(Put(h, fs[0].at, fs[0].bytes), fs[1..], i, j);
    }
  }

  /** A field no later one touches holds its bytes. */
  lemma {:induction false} FieldHeld(h: seq<Byte>, fs: seq<Field>, k: nat)
    requires Fit(fs, |h|) && k < |fs|
    requires forall l :: k < l < |fs| ==> fs[k].at + |fs[k].bytes| <= fs[l].at || fs[l].at + |fs[l].bytes| <= fs[k].at
    ensures PutAll(h, fs)[fs[k].at..fs[k].at + |fs[k].bytes|] == fs[k].bytes
    decreases k
  {
    hide Put;
    var h' := Put(h, fs[0].at, fs[0].bytes);
    if k == 0 {
      PutThere(h, fs[0].at, fs[0].bytes);
      PutAllAside(h', fs[1..], fs[0].at, fs[0].at + |fs[0].bytes|);
    } else {
      FieldHeld(h', fs[1..], k - 1);
    }
  }

  lemma HeaderField(name: seq<Byte>, size: nat, k: nat)
    requires 1 <= k < |HeaderFields(name, size)|
    ensures var f := HeaderFields(name, size)[k];
            f.at + |f.bytes| <= BLOCK && Header(name, size)[f.at..f.at + |f.bytes|] == f.bytes
  {
    hide Header, Octal, PutAll, Put;
    var fs := HeaderFields(name, size);
    FieldHeld(Zeros(BLOCK), fs, k);
    HeaderKeepsFields(name, size, fs[k].at, fs[k].at + |fs[k].bytes|);
  }

  lemma NameWritten(name: seq<Byte>, size: nat)
    ensures Header(name, size)[0..100] == NameField(name) + Zeros(100 - |NameField(name)|)
  {
    hide Header, Octal, PutAll, Put;
    var fs := HeaderFields(name, size);
    HeaderKeepsFields(name, size, 0, 100);
    PutFirst(Zeros(BLOCK), fs);
    PutAllAside(Put(Zeros(BLOCK), 0, NameField(name)), fs[1..], 0, 100);
    NameOverZeros(NameField(name));
  }

  lemma PutFirst(h: seq<Byte>, fs: seq<Field>)
    requires fs != [] && Fit(fs, |h|)
    ensures PutAll(h, fs) == PutAll(Put(h, fs[0].at, fs[0].bytes), fs[1..])
  {
  }

  lemma NameOverZeros(name: seq<Byte>)
    requires |name| <= 100
    ensures Put(Zeros(BLOCK), 0, name)[0..100] == name + Zeros(100 - |name|)
  {
  }

  lemma SizeAndTypeWritten(name: seq<Byte>, size: nat)
    ensures Header(name, size)[124..135] == Octal(size, 11) && Header(name, size)[156..157] == Ascii("0")
  {
    hide Header, Octal;
    HeaderField(name, size, 4);
    HeaderField(name, size, 6);
    var h := Header(name, size);
    assert h[124..135] == h[124..136][..11];
  }

  /** The fixed fields are those of the standard: mode 0755, owner and group 0, time 0, the
      `ustar` magic and version 00; the size ends in a space and the checksum in NUL and space. */
  lemma FixedFields(name: seq<Byte>, size: nat)
    ensures var h := Header(name, size);
            && h[100..107] == Ascii("0000755") && h[108..115] == h[116..123] == Ascii("0000000")
            && h[136..147] == Ascii("00000000000")
            && h[257..262] == Ascii("ustar") && h[262..265] == [0] + Ascii("00")
            && h[135] == 0x20 && h[154] == 0 && h[155] == 0x20
  {
    hide Header, Octal, ParseOctal;
    HeaderField(name, size, 4);
    ChecksumEnds(name, size);
    var h := Header(name, size);
    assert h[135] == h[124..136][11];
    HeaderField(name, size, 1);
    HeaderField(name, size, 2);
    HeaderField(name, size, 3);
    HeaderField(name, size, 5);
    HeaderField(name, size, 7);
    HeaderField(name, size, 8);
  }

  lemma ChecksumEnds(name: seq<Byte>, size: nat)
    ensures var h := Header(name, size);
            h[154] == 0 && h[155] == 0x20 && forall i :: 148 <= i < 154 ==> 0x30 <= h[i] <= 0x37
  {
    hide Fields, Octal, Sum;
    var f := Fields(name, size);
    PutThere(f, 148, Octal(Checksum(f), 6) + [0] + Ascii(" "));
    var h := Header(name, size);
    var field := Octal(Checksum(f), 6) + [0] + Ascii(" ");
    assert h[148..156] == field;
    assert forall i :: 148 <= i < 156 ==> h[i] == h[148..156][i - 148];
  }

  /** In no field. */
  predicate Gap(i: nat) {
    i in {107, 115, 123, 147} || 157 <= i < 257 || 265 <= i < 512
  }

  /** Every byte of a header that no field holds is zero, the rest of the name field included. */
  lemma ZeroElsewhere(name: seq<Byte>, size: nat, i: nat)
    requires Gap(i) || |name| <= i < 100
    ensures Header(name, size)[i] == 0
  {
    hide Header, Octal, PutAll, Put;
    var h := Header(name, size);
    if i < 100 {
      NameWritten(name, size);
      assert h[i] == h[0..100][i];
    } else {
      HeaderKeepsFields(name, size, i, i + 1);
      PutAllAside(Zeros(BLOCK), HeaderFields(name, size), i, i + 1);
      assert h[i] == h[i..i + 1][0];
    }
  }

  /** A record is a multiple of 512 bytes: the header, the data, and fewer than 512 zeros. */
  lemma RecordIs(e: Entry)
    ensures var r, n := Record(e), |e.data|;
            && |r| % 512 == 0 && 512 + n <= |r| < 512 + n + 512
            && r[..512] == Header(e.name, n) && r[512..512 + n] == e.data
            && forall i :: 512 + n <= i < |r| ==> r[i] == 0
  {
    hide Header;
    PaddingIs(|e.data|);
  }

  /** An archive is its records and 1024 zeros. */
  lemma {:induction false} ArchiveIs(es: seq<Entry>)
    ensures var a := Archive(es);
            && |a| >= 1024 && |a| % 512 == 0 && (forall i :: |a| - 1024 <= i < |a| ==> a[i] == 0)
            && (es == [] ==> |a| == 1024) && (es != [] ==> a == Record(es[0]) + Archive(es[1..]))
  {
    hide Record;
    if es != [] {
      ArchiveIs(es[1..]);
      RecordIs(es[0]);
      assert Archive(es) == Record(es[0]) + Archive(es[1..]);
    }
  }

  /** The reader gets what is kept of the name, and the size and type, back from the header
      written for any entry. */
  lemma HeaderReadsBack(e: Entry)
    requires Sized(e)
    ensures var h := Header(e.name, |e.data|);
            (h[0] == 0 <==> Ends(e)) && NameIn(h) == Kept(e.name) && SizeIn(h) == |e.data| && IsFile(h)
  {
    hide Header, Fields, Octal, Power8, ParseOctal, Utf8, UpToNul;
    var h, name := Header(e.name, |e.data|), NameField(e.name);
    NameWritten(e.name, |e.data|);
    SizeAndTypeWritten(e.name, |e.data|);
    UpToPadding(name, 100 - |name|);
    OctalRoundTrip(|e.data|, 11);
    assert h[0] == h[0..100][0] && h[156] == h[156..157][0];
    assert h[..100] == h[0..100];
  }

  /** The checksum field holds what the standard asks for: the sum of the header's bytes with
      that field read as spaces. */
  lemma ChecksumIsValid(name: seq<Byte>, size: nat)
    ensures var h := Header(name, size);
            ParseOctal(h[148..156], 0) == Sum(Put(h, 148, Ascii("        ")))
  {
    hide Fields, Octal, Sum, ParseOctal;
    var f := Fields(name, size);
    var c := Checksum(f);
    var field := Octal(c, 6) + [0] + Ascii(" ");
    PutThere(f, 148, field);
    assert Put(Put(f, 148, field), 148, Ascii("        ")) == Put(f, 148, Ascii("        "));
    SumPut(f, 148, Ascii("        "));
    SpacesSum();
    ChecksumParses(c);
    ChecksumFits(f);
    SixDigits();
    OctalRoundTrip(c, 6);
  }

  lemma SpacesSum()
    ensures Sum(Ascii("        ")) == 8 * 32
  {
    var s := Ascii("        ");
    assert s == [32, 32, 32, 32, 32, 32, 32, 32];
    SumAppend([32, 32, 32, 32], [32, 32, 32, 32]);
    assert [32, 32, 32, 32] + [32, 32, 32, 32] == s;
    SumAppend([32, 32], [32, 32]);
    assert [32, 32] + [32, 32] == [32, 32, 32, 32];
  }

  lemma ChecksumFits(h: seq<Byte>)
    requires |h| == BLOCK
    ensures Checksum(h) <= 512 * 255 + 256
  {
  }

  lemma SixDigits()
    ensures Power8(6) == 262144
  {
  }

  lemma ChecksumParses(c: nat)
    ensures ParseOctal(Octal(c, 6) + [0] + Ascii(" "), 0) == ParseOctal(Octal(c, 6), 0)
  {
    hide Octal;
    var end := [0] + Ascii(" ");
    assert Octal(c, 6) + [0] + Ascii(" ") == Octal(c, 6) + end;
    ParseAppend(Octal(c, 6), end, 0);
  }

  // ── Finding ────────────────────────────────────────────────────────────────

  /** The data of the first entry with that name. */
  function First(es: seq<Entry>, want: seq<Byte>): Option<seq<Byte>> {
    if es == [] then None
    else if Bare(es[0].name) == want then Some(es[0].data)
    else First(es[1..], want)
  }

  /** At a record the reader sees its header and data, and steps to the next record. */
  lemma AtRecord(data: seq<Byte>, pos: nat, header: seq<Byte>, body: seq<Byte>, rest: seq<Byte>)
    requires |header| == BLOCK
    requires pos <= |data| && data[pos..] == header + body + Zeros(Padding(|body|)) + rest
    ensures pos + BLOCK <= |data| && data[pos..pos + BLOCK] == header && data[pos] == header[0]
    ensures pos + BLOCK + |body| <= |data| && data[pos + BLOCK..pos + BLOCK + |body|] == body
    ensures NextHeader(pos, |body|) <= |data| && data[NextHeader(pos, |body|)..] == rest
  {
    var tail := data[pos..];
    var n := BLOCK + |body| + Padding(|body|);
    assert n == NextHeader(pos, |body|) - pos;
    assert data[pos..pos + BLOCK] == tail[..BLOCK] == header;
    assert data[pos + BLOCK..pos + BLOCK + |body|] == tail[BLOCK..BLOCK + |body|];
    assert data[pos + n..] == tail[n..];
  }

  lemma SplitRecord(e: Entry, rest: seq<Byte>)
    ensures Record(e) + rest == Header(e.name, |e.data|) + e.data + Zeros(Padding(|e.data|)) + rest
  {
    hide Header;
  }

  lemma {:induction false} FindsFirst(data: seq<Byte>, pos: nat, es: seq<Entry>, want: seq<Byte>)
    requires AllSized(es) && pos <= |data| && data[pos..] == Archive(es)
    ensures FindFrom(data, pos, want) == First(AsRead(es), want)
    decreases |es|
  {
    hide Record, Header, Sized, Ends, Kept, Bare, SizeIn, NameIn, IsFile, NextHeader;
    if es == [] {
      assert data[pos] == data[pos..][0];
    } else {
      var e := es[0];
      var rest := Archive(es[1..]);
      assert Archive(es) == Record(e) + rest;
      SplitRecord(e, rest);
      AtRecord(data, pos, Header(e.name, |e.data|), e.data, rest);
      HeaderReadsBack(e);
      FindsFirst(data, NextHeader(pos, |e.data|), es[1..], want);
    }
  }

  /** For every list of entries the writer accepts and every path, the reader returns the data
      of the first entry, before any that ends the archive, whose name as kept is the path's. */
  lemma FindsAsRead(es: seq<Entry>, path: seq<Byte>)
    requires AllSized(es)
    ensures FindFrom(Archive(es), 0, Wanted(path)) == First(AsRead(es), Wanted(path))
  {
    hide FindFrom, First, Archive, AllSized;
    assert Archive(es)[0..] == Archive(es);
    FindsFirst(Archive(es), 0, es, Wanted(path));
  }

  /** Reading undoes writing: for every list of storable entries and every path, the reader
      returns the data of the first entry with that path's name, or none if there is none. */
  lemma RoundTrip(es: seq<Entry>, path: seq<Byte>)
    requires forall i :: 0 <= i < |es| ==> Storable(es[i])
    ensures FindFrom(Archive(es), 0, Wanted(path)) == First(es, Wanted(path))
  {
    hide FindFrom, First, Archive, AsRead;
    FindsAsRead(es, path);
    StorableAsRead(es);
  }

  /** An empty name ends the archive for the reader: what is found is what lies before it. */
  lemma EmptyNameEndsArchive(es: seq<Entry>, k: nat, path: seq<Byte>)
    requires AllSized(es) && k < |es| && es[k].name == []
    ensures FindFrom(Archive(es), 0, Wanted(path)) == FindFrom(Archive(es[..k]), 0, Wanted(path))
  {
    hide FindFrom, First, Archive, AsRead, Sized;
    FindsAsRead(es, path);
    FindsAsRead(es[..k], path);
    AsReadUpTo(es, k);
  }

  // ── Names and paths ────────────────────────────────────────────────────────

  function Repeated(s: seq<Byte>, n: nat): seq<Byte> {
    if n == 0 then [] else s + Repeated(s, n - 1)
  }

  predicate StartsDotSlash(s: seq<Byte>) {
    [0x2E, 0x2F] <= s
  }

  predicate StartsSlash(s: seq<Byte>) {
    [0x2F] <= s
  }

  /** `name` is `n` behind any number of "./". */
  ghost predicate Spells(name: seq<Byte>, n: seq<Byte>) {
    !StartsDotSlash(n) && exists d: nat :: name == Repeated([0x2E, 0x2F], d) + n
  }

  lemma {:induction false} BareOf(n: seq<Byte>, d: nat)
    requires !StartsDotSlash(n)
    ensures Bare(Repeated([0x2E, 0x2F], d) + n) == n
  {
    if d == 0 {
      assert Repeated([0x2E, 0x2F], 0) + n == n;
    } else {
      var rest := Repeated([0x2E, 0x2F], d - 1) + n;
      assert Repeated([0x2E, 0x2F], d) + n == [0x2E, 0x2F] + rest;
      BareOf(n, d - 1);
    }
  }

  lemma {:induction false} BareSpells(s: seq<Byte>)
    ensures Spells(s, Bare(s))
  {
    hide Spells, Repeated;
    if StartsDotSlash(s) {
      BareSpells(s[2..]);
      SpellsMore(s, Bare(s));
    } else {
      SpellsItself(s);
    }
  }

  lemma SpellsMore(s: seq<Byte>, n: seq<Byte>)
    requires StartsDotSlash(s) && Spells(s[2..], n)
    ensures Spells(s, n)
  {
    hide StartsDotSlash;
    FirstTwo(s);
    var d: nat :| s[2..] == Repeated([0x2E, 0x2F], d) + n;
    var more := Repeated([0x2E, 0x2F], d + 1);
    assert s == more + n;
  }

  lemma FirstTwo(s: seq<Byte>)
    requires StartsDotSlash(s)
    ensures |s| >= 2 && s == [0x2E, 0x2F] + s[2..]
  {
  }

  lemma SpellsItself(s: seq<Byte>)
    requires !StartsDotSlash(s)
    ensures Spells(s, s)
  {
    assert s == Repeated([0x2E, 0x2F], 0) + s;
  }

  /** Stripping finds the one name behind the "./"s. */
  lemma BareIs(s: seq<Byte>, n: seq<Byte>)
    ensures Bare(s) == n <==> Spells(s, n)
  {
    hide Bare;
    BareSpells(s);
    if Spells(s, n) {
      var d: nat :| s == Repeated([0x2E, 0x2F], d) + n;
      BareOf(n, d);
    }
  }

  lemma {:induction false} UnrootedOf(n: seq<Byte>, k: nat)
    requires !StartsSlash(n)
    ensures Unrooted(Repeated([0x2F], k) + n) == n
  {
    if k == 0 {
      assert Repeated([0x2F], 0) + n == n;
    } else {
      var rest := Repeated([0x2F], k - 1) + n;
      assert Repeated([0x2F], k) + n == [0x2F] + rest;
      UnrootedOf(n, k - 1);
    }
  }

  lemma {:induction false} UnrootedSplits(s: seq<Byte>) returns (k: nat)
    ensures s == Repeated([0x2F], k) + Unrooted(s) && !StartsSlash(Unrooted(s))
  {
    if StartsSlash(s) {
      var j := UnrootedSplits(s[1..]);
      k := j + 1;
      assert s == [0x2F] + s[1..] == Repeated([0x2F], k) + Unrooted(s);
    } else {
      k := 0;
    }
  }

  /** A path asks for the name behind its slashes and then its "./"s. */
  lemma WantedIs(path: seq<Byte>, slashes: nat, rest: seq<Byte>, n: seq<Byte>)
    requires path == Repeated([0x2F], slashes) + rest && !StartsSlash(rest) && Spells(rest, n)
    ensures Wanted(path) == n
  {
    hide Bare, Unrooted;
    UnrootedOf(rest, slashes);
    BareIs(rest, n);
  }

  lemma {:induction false} FirstIs(es: seq<Entry>, want: seq<Byte>, k: nat)
    requires k <= |es| && forall j :: 0 <= j < k ==> Bare(es[j].name) != want
    ensures k == |es| ==> First(es, want) == None
    ensures k < |es| && Bare(es[k].name) == want ==> First(es, want) == Some(es[k].data)
  {
    hide Bare;
    if k > 0 {
      FirstIs(es[1..], want, k - 1);
    }
  }

  /** A path with any number of leading slashes and "./"s reads back the first entry whose name,
      behind any number of "./"s, is the same; with no such entry it reads nothing. */
  lemma ReadsNamed(es: seq<Entry>, k: nat, path: seq<Byte>, slashes: nat, rest: seq<Byte>, n: seq<Byte>)
    requires forall i :: 0 <= i < |es| ==> Storable(es[i])
    requires path == Repeated([0x2F], slashes) + rest && !StartsSlash(rest) && Spells(rest, n)
    requires k <= |es| && forall j :: 0 <= j < k ==> !Spells(es[j].name, n)
    ensures k == |es| ==> FindFrom(Archive(es), 0, Wanted(path)) == None
    ensures k < |es| && Spells(es[k].name, n) ==> FindFrom(Archive(es), 0, Wanted(path)) == Some(es[k].data)
  {
    hide FindFrom, First, Archive, Bare, Wanted, Storable, Spells, StartsSlash;
    WantedIs(path, slashes, rest, n);
    RoundTrip(es, path);
    forall j | 0 <= j < |es| ensures Bare(es[j].name) == n <==> Spells(es[j].name, n) {
      BareIs(es[j].name, n);
    }
    FirstIs(es, n, k);
  }

  lemma {:induction false} UpToNulIs(s: seq<Byte>, n: nat)
    requires n <= |s| && 0 !in s[..n] && (n == |s| || s[n] == 0)
    ensures UpToNul(s) == s[..n]
  {
    if n > 0 {
      assert s[1..][..n - 1] == s[..n][1..];
      UpToNulIs(s[1..], n - 1);
    }
  }

  /** What is kept of any name: its first 100 bytes, cut at the first NUL, if they are text. */
  lemma KeptIs(name: seq<Byte>, n: nat)
    requires n <= |name| && n <= 100 && 0 !in name[..n]
    requires n == 100 || n == |name| || name[n] == 0
    ensures Kept(name) == if IsText(name[..n]) then name[..n] else []
  {
    hide Utf8, IsText, UpToNul;
    var field := NameField(name);
    assert field[..n] == name[..n];
    UpToNulIs(field, n);
    Utf8IsText(name[..n]);
  }

  // ── Archives of other writers ──────────────────────────────────────────────

  /** A header as some writer made it, and the data it announces. */
  datatype Member = Member(header: seq<Byte>, data: seq<Byte>)

  predicate Announces(m: Member) {
    |m.header| == 512 && m.header[0] != 0 && ParseOctal(m.header[124..135], 0) == |m.data|
  }

  ghost predicate AllAnnounce(ms: seq<Member>) {
    forall i :: 0 <= i < |ms| ==> Announces(ms[i])
  }

  /** Header, data, and zeros to the next multiple of 512. */
  function Stored(ms: seq<Member>): seq<Byte> {
    if ms == [] then []
    else ms[0].header + ms[0].data + Zeros(Padding(|ms[0].data|)) + Stored(ms[1..])
  }

  lemma PaddingIs(n: nat)
    ensures Padding(n) < 512 && (n + Padding(n)) % 512 == 0
  {
  }

  /** The name field as text: up to its first NUL, and empty when that is not text. */
  ghost predicate Names(header: seq<Byte>, name: seq<Byte>)
    requires |header| == 512
  {
    exists n: nat :: n <= 100 && 0 !in header[..n] && (n == 100 || header[n] == 0)
      && name == if IsText(header[..n]) then header[..n] else []
  }

  lemma {:induction false} UpToNulAt(s: seq<Byte>) returns (n: nat)
    ensures n <= |s| && UpToNul(s) == s[..n] && 0 !in s[..n] && (n == |s| || s[n] == 0)
  {
    if s == [] || s[0] == 0 {
      n := 0;
    } else {
      var m := UpToNulAt(s[1..]);
      n := m + 1;
      assert s[..n] == [s[0]] + s[1..][..m];
    }
  }

  lemma NameInIs(header: seq<Byte>)
    requires |header| == BLOCK
    ensures Names(header, NameIn(header))
  {
    hide Utf8, IsText, UpToNul;
    var n := UpToNulAt(header[..100]);
    assert header[..100][..n] == header[..n];
    Utf8IsText(header[..n]);
  }

  /** A regular file, in either form the standard gives it. */
  predicate Regular(m: Member)
    requires Announces(m)
  {
    m.header[156] == 0x30 || m.header[156] == 0
  }

  predicate Matches(m: Member, want: seq<Byte>)
    requires Announces(m)
  {
    Regular(m) && Bare(NameIn(m.header)) == want
  }

  /** The reader stops: too little for a header, a header that begins with NUL, or a header
      whose data is cut short. */
  predicate CutOff(tail: seq<Byte>) {
    |tail| < 512 || tail[0] == 0 || |tail| < 512 + ParseOctal(tail[124..135], 0)
  }

  lemma NothingCutOff(data: seq<Byte>, pos: nat, want: seq<Byte>)
    requires pos <= |data| && CutOff(data[pos..])
    ensures FindFrom(data, pos, want) == None
  {
    hide ParseOctal, Bare, NameIn;
    var tail := data[pos..];
    if AtHeader(data, pos) {
      var header := data[pos..pos + BLOCK];
      assert header == tail[..BLOCK];
      assert tail[124..135] == tail[..BLOCK][124..135];
      assert !AtHeader(data, NextHeader(pos, SizeIn(header)));
    }
  }

  lemma {:induction false} FindsMemberFrom(data: seq<Byte>, pos: nat, ms: seq<Member>, tail: seq<Byte>,
                                           want: seq<Byte>, k: nat)
    requires AllAnnounce(ms) && CutOff(tail) && pos <= |data| && data[pos..] == Stored(ms) + tail
    requires k <= |ms| && forall j :: 0 <= j < k ==> !Matches(ms[j], want)
    ensures k == |ms| ==> FindFrom(data, pos, want) == None
    ensures k < |ms| && Matches(ms[k], want) ==> FindFrom(data, pos, want) == Some(ms[k].data)
    decreases |ms|
  {
    hide Bare, NameIn, CutOff, ParseOctal, NextHeader;
    if ms == [] {
      assert data[pos..] == tail;
      NothingCutOff(data, pos, want);
    } else {
      var m := ms[0];
      assert Announces(m);
      var rest := Stored(ms[1..]) + tail;
      assert data[pos..] == m.header + m.data + Zeros(Padding(|m.data|)) + rest;
      AtRecord(data, pos, m.header, m.data, rest);
      assert AllAnnounce(ms[1..]);
      if k > 0 {
        assert !Matches(m, want);
        FindsMemberFrom(data, NextHeader(pos, |m.data|), ms[1..], tail, want, k - 1);
      }
    }
  }

  /** In an archive of any writer, with whatever cut-off end, a path finds the first regular
      file of that name. */
  lemma FindsMember(ms: seq<Member>, tail: seq<Byte>, want: seq<Byte>, k: nat)
    requires AllAnnounce(ms) && CutOff(tail)
    requires k <= |ms| && forall j :: 0 <= j < k ==> !Matches(ms[j], want)
    ensures k == |ms| ==> FindFrom(Stored(ms) + tail, 0, want) == None
    ensures k < |ms| && Matches(ms[k], want) ==> FindFrom(Stored(ms) + tail, 0, want) == Some(ms[k].data)
  {
    hide FindFrom, Stored, CutOff, Matches, AllAnnounce;
    var data := Stored(ms) + tail;
    assert data[0..] == data;
    FindsMemberFrom(data, 0, ms, tail, want, k);
  }

  // ── Listing ────────────────────────────────────────────────────────────────

  const NEWLINE: Byte := 10

  /** A name relative to a prefix, when it has one and something follows it. */
  function Relative(name: seq<Byte>, prefix: seq<Byte>): Option<seq<Byte>> {
    if prefix == [] then Some(name)
    else if prefix <= name then
      var rest := Unrooted(name[|prefix|..]);
      if rest == [] then None else Some(rest)
    else None
  }

  /** The output with one more line, if it still fits. */
  function WithLine(out: seq<Byte>, rel: Option<seq<Byte>>, cap: nat): seq<Byte> {
    if rel.Some? && |out| + |rel.value| + 1 <= cap then out + rel.value + [NEWLINE] else out
  }

  function ListFrom(data: seq<Byte>, pos: nat, prefix: seq<Byte>, cap: nat, out: seq<Byte>): seq<Byte>
    decreases |data| - pos
  {
    if !AtHeader(data, pos) then out
    else
      var header := data[pos..pos + BLOCK];
      var rel := if IsFile(header) then Relative(Bare(NameIn(header)), prefix) else None;
      ListFrom(data, NextHeader(pos, SizeIn(header)), prefix, cap, WithLine(out, rel, cap))
  }

  /** The same walk over the entries themselves. */
  function Listing(es: seq<Entry>, prefix: seq<Byte>, cap: nat, out: seq<Byte>): seq<Byte> {
    if es == [] then out
    else Listing(es[1..], prefix, cap, WithLine(out, Relative(Bare(es[0].name), prefix), cap))
  }

  /** Every matching name, one a line, in archive order. */
  function Lines(es: seq<Entry>, prefix: seq<Byte>): seq<Byte> {
    if es == [] then []
    else
      var rel := Relative(Bare(es[0].name), prefix);
      (if rel.Some? then rel.value + [NEWLINE] else []) + Lines(es[1..], prefix)
  }

  /** A name lies under a prefix when the prefix, any number of slashes and then something that
      does not begin with one make it up; under no prefix it is itself. */
  lemma RelativeIs(name: seq<Byte>, prefix: seq<Byte>, rel: seq<Byte>)
    ensures Relative(name, []) == Some(name)
    ensures prefix != [] ==>
              (Relative(name, prefix) == Some(rel) <==>
               rel != [] && !StartsSlash(rel) && exists d: nat :: name == prefix + Repeated([0x2F], d) + rel)
  {
    hide Unrooted, StartsSlash;
    if prefix != [] && Relative(name, prefix) == Some(rel) {
      var d := UnrootedSplits(name[|prefix|..]);
      assert name[|prefix|..] == Repeated([0x2F], d) + rel;
      assert name == prefix + name[|prefix|..];
      assert name == prefix + Repeated([0x2F], d) + rel;
    }
    if d: nat :| prefix != [] && rel != [] && !StartsSlash(rel) && name == prefix + Repeated([0x2F], d) + rel {
      assert name[|prefix|..] == Repeated([0x2F], d) + rel;
      UnrootedOf(rel, d);
    }
  }

  /** One more entry adds its line, ended by a newline, if the line still fits; a line that
      does not fit is left out, and shorter ones after it may still come. */
  lemma {:induction false} ListingGrows(es: seq<Entry>, e: Entry, prefix: seq<Byte>, cap: nat, out: seq<Byte>)
    ensures var done := Listing(es, prefix, cap, out);
            var rel := Relative(Bare(e.name), prefix);
            Listing(es + [e], prefix, cap, out) ==
            if rel.None? || |done| + |rel.value| + 1 > cap then done else done + rel.value + [10]
  {
    hide Relative, Bare;
    if es == [] {
      assert (es + [e])[1..] == [];
    } else {
      assert (es + [e])[1..] == es[1..] + [e];
      ListingGrows(es[1..], e, prefix, cap, WithLine(out, Relative(Bare(es[0].name), prefix), cap));
    }
  }

  /** The regular files among the members, under the names their headers hold. */
  function Files(ms: seq<Member>): seq<Entry>
    requires AllAnnounce(ms)
  {
    if ms == [] then []
    else
      assert Announces(ms[0]);
      (if Regular(ms[0]) then [Entry(NameIn(ms[0].header), ms[0].data)] else []) + Files(ms[1..])
  }

  /** In an archive of any writer the regular files are listed, and nothing else. */
  lemma {:induction false} ListsMembers(data: seq<Byte>, pos: nat, ms: seq<Member>, tail: seq<Byte>,
                                        prefix: seq<Byte>, cap: nat, out: seq<Byte>)
    requires AllAnnounce(ms) && (|tail| < 512 || tail[0] == 0)
    requires pos <= |data| && data[pos..] == Stored(ms) + tail
    ensures ListFrom(data, pos, prefix, cap, out) == Listing(Files(ms), prefix, cap, out)
    decreases |ms|
  {
    hide Bare, NameIn, ParseOctal, NextHeader, Relative, WithLine, Listing;
    if ms == [] {
      NothingListed(prefix, cap, out);
      assert data[pos..] == tail;
      assert |tail| > 0 ==> data[pos] == tail[0];
    } else {
      var m := ms[0];
      assert Announces(m);
      var rest := Stored(ms[1..]) + tail;
      assert data[pos..] == m.header + m.data + Zeros(Padding(|m.data|)) + rest;
      AtRecord(data, pos, m.header, m.data, rest);
      assert AllAnnounce(ms[1..]);
      var rel := if Regular(m) then Relative(Bare(NameIn(m.header)), prefix) else None;
      ListsMembers(data, NextHeader(pos, |m.data|), ms[1..], tail, prefix, cap, WithLine(out, rel, cap));
      ListingOfFirst(ms, prefix, cap, out);
    }
  }

  lemma NothingListed(prefix: seq<Byte>, cap: nat, out: seq<Byte>)
    ensures Listing([], prefix, cap, out) == out
  {
  }

  lemma ListingOfFirst(ms: seq<Member>, prefix: seq<Byte>, cap: nat, out: seq<Byte>)
    requires AllAnnounce(ms) && ms != []
    ensures Announces(ms[0]) && AllAnnounce(ms[1..])
    ensures var rel := if Regular(ms[0]) then Relative(Bare(NameIn(ms[0].header)), prefix) else None;
            Listing(Files(ms), prefix, cap, out) == Listing(Files(ms[1..]), prefix, cap, WithLine(out, rel, cap))
  {
    hide Bare, NameIn, ParseOctal, Relative;
    assert Announces(ms[0]);
    if Regular(ms[0]) {
      assert Files(ms)[1..] == Files(ms[1..]);
    } else {
      assert Files(ms) == Files(ms[1..]);
    }
  }

  lemma {:induction false} ListsEntries(data: seq<Byte>, pos: nat, es: seq<Entry>, prefix: seq<Byte>,
                                        cap: nat, out: seq<Byte>)
    requires AllSized(es) && pos <= |data| && data[pos..] == Archive(es)
    ensures ListFrom(data, pos, prefix, cap, out) == Listing(AsRead(es), prefix, cap, out)
    decreases |es|
  {
    hide Record, Header, Sized, Ends, Kept, Bare, Relative, WithLine, SizeIn, NameIn, IsFile, NextHeader;
    if es == [] {
      assert data[pos] == data[pos..][0];
    } else {
      var e := es[0];
      var rest := Archive(es[1..]);
      assert Archive(es) == Record(e) + rest;
      SplitRecord(e, rest);
      AtRecord(data, pos, Header(e.name, |e.data|), e.data, rest);
      HeaderReadsBack(e);
      var next := WithLine(out, Relative(Bare(Kept(e.name)), prefix), cap);
      ListsEntries(data, NextHeader(pos, |e.data|), es[1..], prefix, cap, next);
    }
  }

  lemma {:induction false} RoomForAll(es: seq<Entry>, prefix: seq<Byte>, cap: nat, out: seq<Byte>)
    requires |out| + |Lines(es, prefix)| <= cap
    ensures Listing(es, prefix, cap, out) == out + Lines(es, prefix)
  {
    hide Bare, Relative;
    if es != [] {
      var rel := Relative(Bare(es[0].name), prefix);
      var next := WithLine(out, rel, cap);
      RoomForAll(es[1..], prefix, cap, next);
    }
  }

  /** With room for all of them a listing is exactly the matching names in order, of the
      entries as the reader meets them. */
  lemma ListsAsRead(es: seq<Entry>, prefix: seq<Byte>, cap: nat)
    requires AllSized(es) && |Lines(AsRead(es), Unrooted(prefix))| <= cap
    ensures ListFrom(Archive(es), 0, Unrooted(prefix), cap, []) == Lines(AsRead(es), Unrooted(prefix))
  {
    hide ListFrom, Listing, Archive, Lines, AsRead;
    assert Archive(es)[0..] == Archive(es);
    ListsEntries(Archive(es), 0, es, Unrooted(prefix), cap, []);
    RoomForAll(AsRead(es), Unrooted(prefix), cap, []);
  }

  /** Storable entries are listed by their own names. */
  lemma ListRoundTrip(es: seq<Entry>, prefix: seq<Byte>, cap: nat)
    requires forall i :: 0 <= i < |es| ==> Storable(es[i])
    requires |Lines(es, Unrooted(prefix))| <= cap
    ensures ListFrom(Archive(es), 0, Unrooted(prefix), cap, []) == Lines(es, Unrooted(prefix))
  {
    hide ListFrom, Archive, Lines, AsRead;
    StorableAsRead(es);
    ListsAsRead(es, prefix, cap);
  }

  method ListInTar(data: seq<Byte>, prefix: seq<Byte>, out: array<Byte>) returns (written: nat)
    modifies out
    ensures written <= out.Length && out[..written] == ListFrom(data, 0, Unrooted(prefix), out.Length, [])
    ensures out[written..] == old(out[written..])
  {
    hide Utf8, Bare, UpToNul, Unrooted, Relative, WithLine;
    var p := Unrooted(prefix);
    ghost var goal := ListFrom(data, 0, p, out.Length, []);
    written := 0;
    var pos := 0;
    while pos + BLOCK <= |data|
      invariant written <= out.Length && out[written..] == old(out[written..])
      invariant ListFrom(data, pos, p, out.Length, out[..written]) == goal
      decreases |data| - pos
    {
      var header := data[pos..pos + BLOCK];
      if header[0] == 0 {
        break;
      }
      var size := ParseOctalField(header[124..135]);
      var rel := if IsFile(header) then Relative(Bare(NameIn(header)), p) else None;
      written := EmitLine(out, written, rel);
      pos := NextHeader(pos, size);
    }
  }

  method EmitLine(out: array<Byte>, written: nat, rel: Option<seq<Byte>>) returns (next: nat)
    requires written <= out.Length
    modifies out
    ensures next <= out.Length && out[..next] == WithLine(old(out[..written]), rel, out.Length)
    ensures written <= next && out[next..] == old(out[next..])
  {
    next := written;
    if rel.Some? && written + |rel.value| + 1 <= out.Length {
      ghost var was := out[..];
      var line := rel.value + [NEWLINE];
      CopyInto(out, written, line);
      next := written + |line|;
      assert out[..next] == was[..written] + line;
      assert out[next..] == was[next..];
    }
  }
}
