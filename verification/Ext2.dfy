/** The read-only ext2 driver: inodes, block pointers through direct, indirect and double
    indirect blocks, and whole-file reads. A `Panicked` result is an index or slice out of
    range in the source. */
module Ext2 {

  import opened Options
  import opened Bytes

  /** A mounted volume; `groups` holds each group's inode table block. */
  datatype Volume = Volume(blockSize: nat, inodesPerGroup: nat, inodeSize: nat, groups: seq<nat>, disk: seq<Byte>)

  datatype Inode = Inode(size: nat, block: seq<nat>)

  datatype Read<+T> = Absent | Got(value: T) | Panicked

  predicate IsVolume(v: Volume) {
    v.blockSize in {1024, 2048, 4096} && v.inodesPerGroup > 0 && v.inodeSize >= 128
  }

  predicate IsInode(inode: Inode) {
    |inode.block| == 15
  }

  function Le16(s: seq<Byte>, at: nat): nat
    requires at + 2 <= |s|
  {
    s[at] as int + 0x100 * (s[at + 1] as int)
  }

  function Le32(s: seq<Byte>, at: nat): nat
    requires at + 4 <= |s|
  {
    Le16(s, at) + 0x1_0000 * Le16(s, at + 2)
  }

  // ── Reading the disk ───────────────────────────────────────────────────────

  function ReadSectors(v: Volume, sector: nat, n: nat): (r: Option<seq<Byte>>)
    ensures r.Some? ==> |r.value| == n * 512
  {
    if (sector + n) * 512 <= |v.disk| then Some(v.disk[sector * 512..(sector + n) * 512]) else None
  }

  function ReadBlock(v: Volume, block: nat): (r: Option<seq<Byte>>)
    requires IsVolume(v)
    ensures r.Some? ==> |r.value| == v.blockSize
  {
    if block == 0 then None else ReadSectors(v, block * (v.blockSize / 512), v.blockSize / 512)
  }

  function InodeAt(data: seq<Byte>, at: nat): (r: Inode)
    requires at + 128 <= |data|
    ensures IsInode(r)
  {
    Inode(Le32(data, at + 4), seq(15, k requires 0 <= k < 15 => Le32(data, at + 40 + 4 * k)))
  }

  function ReadInode(v: Volume, ino: nat): (r: Option<Inode>)
    requires IsVolume(v)
    ensures r.Some? ==> IsInode(r.value)
  {
    if ino == 0 then None
    else
      var group, local := (ino - 1) / v.inodesPerGroup, (ino - 1) % v.inodesPerGroup;
      if group >= |v.groups| then None
      else
        var byteOff := local * v.inodeSize;
        match ReadSectors(v, v.groups[group] * (v.blockSize / 512) + byteOff / 512, 1)
        case None => None
        case Some(data) =>
          if byteOff % 512 + v.inodeSize > |data| then None else Some(InodeAt(data, byteOff % 512))
  }

  /** A block is its own stretch of the disk. */
  lemma BlockIsStretch(v: Volume, block: nat)
    requires IsVolume(v)
    ensures ReadBlock(v, block).Some? <==> block != 0 && (block + 1) * v.blockSize <= |v.disk|
    ensures ReadBlock(v, block).Some? ==>
              0 <= block * v.blockSize && ReadBlock(v, block).value == v.disk[block * v.blockSize..(block + 1) * v.blockSize]
  {
    var n := v.blockSize / 512;
    assert block * n * 512 == block * v.blockSize && (block * n + n) * 512 == (block + 1) * v.blockSize;
  }

  /** Where an inode lies: its group's table, then its place in the group. */
  function InodeOffset(v: Volume, ino: nat): nat
    requires IsVolume(v) && ino > 0 && (ino - 1) / v.inodesPerGroup < |v.groups|
  {
    v.groups[(ino - 1) / v.inodesPerGroup] * v.blockSize + (ino - 1) % v.inodesPerGroup * v.inodeSize
  }

  /** An inode is read from its place on the disk, whenever it does not cross a sector. */
  lemma InodeIsAtOffset(v: Volume, ino: nat)
    requires IsVolume(v) && ino > 0 && (ino - 1) / v.inodesPerGroup < |v.groups|
    requires InodeOffset(v, ino) / 512 * 512 + 512 <= |v.disk|
    ensures ReadInode(v, ino).Some? <==> InodeOffset(v, ino) % 512 + v.inodeSize <= 512
    ensures ReadInode(v, ino).Some? ==> ReadInode(v, ino) == Some(InodeAt(v.disk, InodeOffset(v, ino)))
  {
    hide InodeAt, InodeOffset;
    SectorOfInode(v, ino);
    var at := InodeOffset(v, ino);
    if at % 512 + v.inodeSize <= 512 {
      InodeInSector(v.disk, at / 512 * 512, at % 512);
    }
  }

  /** The sector that is read and the offset in it. */
  lemma SectorOfInode(v: Volume, ino: nat)
    requires IsVolume(v) && ino > 0 && (ino - 1) / v.inodesPerGroup < |v.groups|
    ensures var byteOff := (ino - 1) % v.inodesPerGroup * v.inodeSize;
            && byteOff >= 0 && byteOff % 512 == InodeOffset(v, ino) % 512
            && v.groups[(ino - 1) / v.inodesPerGroup] * (v.blockSize / 512) + byteOff / 512 == InodeOffset(v, ino) / 512
  {
    var byteOff := (ino - 1) % v.inodesPerGroup * v.inodeSize;
    var base := v.groups[(ino - 1) / v.inodesPerGroup] * (v.blockSize / 512);
    SectorSplit(base, byteOff);
    assert base * 512 == v.groups[(ino - 1) / v.inodesPerGroup] * v.blockSize;
  }

  lemma SectorSplit(base: nat, off: nat)
    ensures (base * 512 + off) / 512 == base + off / 512 && (base * 512 + off) % 512 == off % 512
  {
  }

  lemma InodeInSector(disk: seq<Byte>, start: nat, at: nat)
    requires at + 128 <= 512 && start + 512 <= |disk|
    ensures InodeAt(disk[start..start + 512], at) == InodeAt(disk, start + at)
  {
  }

  /** Four bytes of the disk, least significant first. */
  function DiskWord(v: Volume, at: nat): nat
    requires at + 4 <= |v.disk|
  {
    v.disk[at] as int + 0x100 * (v.disk[at + 1] as int) + 0x1_0000 * (v.disk[at + 2] as int)
    + 0x100_0000 * (v.disk[at + 3] as int)
  }

  /** The size is the word at offset 4 of the inode's place in its group's table, and the fifteen
      block pointers are the words from offset 40 on. */
  lemma InodeFields(v: Volume, ino: nat, k: nat)
    requires IsVolume(v) && ino > 0 && (ino - 1) / v.inodesPerGroup < |v.groups| && k < 15
    requires InodeOffset(v, ino) / 512 * 512 + 512 <= |v.disk| && InodeOffset(v, ino) % 512 + v.inodeSize <= 512
    ensures var at := v.groups[(ino - 1) / v.inodesPerGroup] * v.blockSize + (ino - 1) % v.inodesPerGroup * v.inodeSize;
            && ReadInode(v, ino).Some? && 0 <= at && at + 100 <= |v.disk|
            && ReadInode(v, ino).value.size == DiskWord(v, at + 4)
            && ReadInode(v, ino).value.block[k] == DiskWord(v, at + 40 + 4 * k)
  {
    hide ReadInode;
    InodeIsAtOffset(v, ino);
    assert InodeOffset(v, ino) + 128 <= |v.disk|;
  }

  /** There is no inode 0, and none past the last group or the end of the disk. */
  lemma NoInode(v: Volume, ino: nat)
    requires IsVolume(v)
    requires ino == 0 || (ino - 1) / v.inodesPerGroup >= |v.groups| || InodeOffset(v, ino) / 512 * 512 + 512 > |v.disk|
    ensures ReadInode(v, ino) == None
  {
    hide InodeAt, InodeOffset;
    if ino > 0 && (ino - 1) / v.inodesPerGroup < |v.groups| {
      SectorOfInode(v, ino);
    }
  }

  // ── Block pointers ─────────────────────────────────────────────────────────

  /** Pointers in one block. */
  function PerBlock(v: Volume): nat {
    v.blockSize / 4
  }

  function NonZero(b: nat): Read<nat> {
    if b == 0 then Absent else Got(b)
  }

  /** Entry `k` of the pointer block `b`. */
  function Entry(v: Volume, b: nat, k: nat): Read<nat>
    requires IsVolume(v)
  {
    if b == 0 then Absent
    else
      match ReadBlock(v, b)
      case None => Absent
      case Some(data) => if k * 4 + 4 > |data| then Panicked else NonZero(Le32(data, k * 4))
  }

  function FileBlock(v: Volume, inode: Inode, logical: nat): Read<nat>
    requires IsVolume(v) && IsInode(inode)
  {
    var p := PerBlock(v);
    if logical < 12 then NonZero(inode.block[logical])
    else if logical < 12 + p then Entry(v, inode.block[12], logical - 12)
    else
      var l2 := logical - 12 - p;
      match Entry(v, inode.block[13], l2 / p)
      case Absent => Absent
      case Panicked => Panicked
      case Got(b) => Entry(v, b, l2 % p)
  }

  // ── The pointers as one flat list ──────────────────────────────────────────

  function NoPointers(n: nat): seq<nat> {
    seq(n, _ => 0)
  }

  /** The pointers a block holds; all zero when there is no such block. */
  function Table(v: Volume, b: nat): (r: seq<nat>)
    requires IsVolume(v)
    ensures |r| == PerBlock(v)
  {
    match ReadBlock(v, b)
    case None => NoPointers(PerBlock(v))
    case Some(data) => seq(PerBlock(v), k requires 0 <= k < PerBlock(v) => Le32(data, k * 4))
  }

  function Tables(v: Volume, bs: seq<nat>): (r: seq<nat>)
    requires IsVolume(v)
    ensures |r| == |bs| * PerBlock(v)
  {
    if bs == [] then [] else Tables(v, bs[..|bs| - 1]) + Table(v, bs[|bs| - 1])
  }

  /** Every block of the file in order: 12 direct, p indirect and p * p double indirect. */
  function Pointers(v: Volume, inode: Inode): (r: seq<nat>)
    requires IsVolume(v) && IsInode(inode)
    ensures |r| == 12 + PerBlock(v) + PerBlock(v) * PerBlock(v)
  {
    inode.block[..12] + Table(v, inode.block[12]) + Tables(v, Table(v, inode.block[13]))
  }

  /** Pointer `k` of a block is the word there on the disk. */
  lemma TableIs(v: Volume, b: nat, k: nat)
    requires IsVolume(v) && k < v.blockSize / 4
    ensures if b != 0 && (b + 1) * v.blockSize <= |v.disk|
            then 0 <= b * v.blockSize && b * v.blockSize + 4 * k + 4 <= |v.disk|
                 && Table(v, b)[k] == DiskWord(v, b * v.blockSize + 4 * k)
            else Table(v, b)[k] == 0
  {
    hide ReadBlock;
    BlockIsStretch(v, b);
    assert (b + 1) * v.blockSize == b * v.blockSize + v.blockSize;
  }

  lemma EntryInTable(v: Volume, b: nat, k: nat)
    requires IsVolume(v) && k < PerBlock(v)
    ensures Entry(v, b, k) == NonZero(Table(v, b)[k])
  {
    hide Le32, ReadSectors;
  }

  lemma {:induction false} TablesAt(v: Volume, bs: seq<nat>, j: nat, k: nat, at: nat)
    requires IsVolume(v) && j < |bs| && k < PerBlock(v) && at == j * PerBlock(v) + k
    ensures at < |Tables(v, bs)| && Tables(v, bs)[at] == Table(v, bs[j])[k]
  {
    hide Table, PerBlock, IsVolume;
    var p, n := PerBlock(v), |bs| - 1;
    assert |Tables(v, bs)| == n * p + p;
    if j < n {
      TablesAt(v, bs[..n], j, k, at);
    }
  }

  /** The branching, dividing pointer walk reads the flat list, for every block of it. */
  lemma FileBlockIsPointer(v: Volume, inode: Inode, logical: nat)
    requires IsVolume(v) && IsInode(inode) && logical < |Pointers(v, inode)|
    ensures FileBlock(v, inode, logical) == NonZero(Pointers(v, inode)[logical])
  {
    hide Table, Tables, Entry, ReadBlock;
    var p := PerBlock(v);
    if logical < 12 {
    } else if logical < 12 + p {
      EntryInTable(v, inode.block[12], logical - 12);
    } else {
      var l2 := logical - 12 - p;
      DoubleIndirect(v, inode, l2);
    }
  }

  lemma DoubleIndirect(v: Volume, inode: Inode, l2: nat)
    requires IsVolume(v) && IsInode(inode) && l2 < PerBlock(v) * PerBlock(v)
    ensures var p := PerBlock(v);
            var b := Entry(v, inode.block[13], l2 / p);
            (if b.Got? then Entry(v, b.value, l2 % p) else b)
            == NonZero(Tables(v, Table(v, inode.block[13]))[l2])
  {
    hide Table, Tables, Entry, ReadBlock;
    var p := PerBlock(v);
    var top := Table(v, inode.block[13]);
    QuotientBelow(l2, p);
    var j, k := l2 / p, l2 % p;
    assert j * p + k == l2;
    EntryInTable(v, inode.block[13], j);
    TablesAt(v, top, j, k, l2);
    if top[j] == 0 {
      NoTable(v, k);
    } else {
      EntryInTable(v, top[j], k);
    }
  }

  lemma QuotientBelow(n: nat, p: nat)
    requires 0 < p && n < p * p
    ensures n / p < p
  {
  }

  lemma NoTable(v: Volume, k: nat)
    requires IsVolume(v) && k < PerBlock(v)
    ensures Table(v, 0)[k] == 0
  {
  }

  // ── Whole files ────────────────────────────────────────────────────────────

  function Then(done: seq<Byte>, rest: Read<seq<Byte>>): Read<seq<Byte>> {
    match rest
    case Got(b) => Got(done + b)
    case Absent => Absent
    case Panicked => Panicked
  }

  lemma ThenThen(a: seq<Byte>, b: seq<Byte>, rest: Read<seq<Byte>>)
    ensures Then(a, Then(b, rest)) == Then(a + b, rest)
    ensures Then([], rest) == rest && Then(a, Got([])) == Got(a)
  {
    assert a + [] == a;
    if rest.Got? {
      assert a + (b + rest.value) == a + b + rest.value;
      assert [] + rest.value == rest.value;
    }
  }

  /** The bytes of block `k` that belong to a file of that size. */
  function Piece(v: Volume, size: nat, k: nat, data: seq<Byte>): seq<Byte>
    requires |data| == v.blockSize && k * v.blockSize < size
  {
    var left := size - k * v.blockSize;
    if left < v.blockSize then data[..left] else data
  }

  /** The loop of `read_file_bytes`, from logical block `k` on. */
  function ReadFrom(v: Volume, inode: Inode, k: nat): Read<seq<Byte>>
    requires IsVolume(v) && IsInode(inode)
    decreases inode.size - k * v.blockSize
  {
    if inode.size <= k * v.blockSize then Got([])
    else
      match FileBlock(v, inode, k)
      case Absent => Absent
      case Panicked => Panicked
      case Got(b) =>
        match ReadBlock(v, b)
        case None => Absent
        case Some(data) =>
          Then(Piece(v, inode.size, k, data), ReadFrom(v, inode, k + 1))
  }

  /** The concatenation of the data blocks of a pointer list, if all are there. */
  function Blocks(v: Volume, pointers: seq<nat>): (r: Option<seq<Byte>>)
    requires IsVolume(v)
    ensures r.Some? ==> |r.value| == |pointers| * v.blockSize
  {
    if pointers == [] then Some([])
    else
      match ReadBlock(v, pointers[0])
      case None => None
      case Some(data) =>
        match Blocks(v, pointers[1..])
        case None => None
        case Some(rest) => Some(data + rest)
  }

  function BlockCount(v: Volume, size: nat): nat
    requires IsVolume(v)
  {
    (size + v.blockSize - 1) / v.blockSize
  }

  lemma CountIs(v: Volume, size: nat, k: nat)
    requires IsVolume(v)
    ensures size <= k * v.blockSize <==> BlockCount(v, size) <= k
  {
  }

  /** What is left of the file from block `k` on. */
  function Rest(v: Volume, inode: Inode, k: nat): Read<seq<Byte>>
    requires IsVolume(v) && IsInode(inode) && k <= BlockCount(v, inode.size) <= |Pointers(v, inode)|
  {
    CountIs(v, inode.size, BlockCount(v, inode.size));
    var n := BlockCount(v, inode.size);
    assert n * v.blockSize == k * v.blockSize + (n - k) * v.blockSize;
    match Blocks(v, Pointers(v, inode)[k..n])
    case None => Absent
    case Some(all) => Got(if inode.size <= k * v.blockSize then [] else all[..inode.size - k * v.blockSize])
  }

  /** The flat file: the leading `size` bytes of its concatenated data blocks. */
  function FlatFile(v: Volume, inode: Inode): Read<seq<Byte>>
    requires IsVolume(v) && IsInode(inode) && BlockCount(v, inode.size) <= |Pointers(v, inode)|
  {
    Rest(v, inode, 0)
  }

  /** One round of the loop, on the flat list. */
  lemma ReadStep(v: Volume, inode: Inode, k: nat)
    requires IsVolume(v) && IsInode(inode) && k < |Pointers(v, inode)| && k * v.blockSize < inode.size
    ensures ReadFrom(v, inode, k) ==
            match ReadBlock(v, Pointers(v, inode)[k])
            case None => Absent
            case Some(data) => Then(Piece(v, inode.size, k, data), ReadFrom(v, inode, k + 1))
  {
    hide Pointers, FileBlock, ReadSectors;
    FileBlockIsPointer(v, inode, k);
  }

  lemma TakeJoined(a: seq<Byte>, b: seq<Byte>, n: nat)
    requires n <= |a| + |b|
    ensures (a + b)[..n] == if n <= |a| then a[..n] else a + b[..n - |a|]
  {
  }

  lemma RestStep(v: Volume, inode: Inode, k: nat)
    requires IsVolume(v) && IsInode(inode) && k < BlockCount(v, inode.size) <= |Pointers(v, inode)|
    requires k * v.blockSize < inode.size
    ensures Rest(v, inode, k) ==
            match ReadBlock(v, Pointers(v, inode)[k])
            case None => Absent
            case Some(data) => Then(Piece(v, inode.size, k, data), Rest(v, inode, k + 1))
  {
    hide Pointers, ReadBlock, BlockCount;
    var n := BlockCount(v, inode.size);
    var ps := Pointers(v, inode)[k..n];
    assert ps[0] == Pointers(v, inode)[k] && ps[1..] == Pointers(v, inode)[k + 1..n];
    CountIs(v, inode.size, n);
    assert (k + 1) * v.blockSize == k * v.blockSize + v.blockSize;
    var data, rest := ReadBlock(v, ps[0]), Blocks(v, ps[1..]);
    if data.Some? && rest.Some? {
      var left := inode.size - k * v.blockSize;
      assert n * v.blockSize == k * v.blockSize + |ps| * v.blockSize;
      TakeJoined(data.value, rest.value, left);
      assert data.value[..v.blockSize] == data.value;
      ThenThen(Piece(v, inode.size, k, data.value), [], Absent);
    }
  }

  lemma {:induction false} ReadsRest(v: Volume, inode: Inode, k: nat)
    requires IsVolume(v) && IsInode(inode) && k <= BlockCount(v, inode.size) <= |Pointers(v, inode)|
    ensures ReadFrom(v, inode, k) == Rest(v, inode, k)
    decreases BlockCount(v, inode.size) - k
  {
    hide Pointers, FileBlock, ReadBlock, BlockCount, Rest, ReadFrom;
    CountIs(v, inode.size, k);
    CountIs(v, inode.size, k + 1);
    if k == BlockCount(v, inode.size) {
      NothingLeft(v, inode, k);
    } else {
      ReadStep(v, inode, k);
      RestStep(v, inode, k);
      ReadsRest(v, inode, k + 1);
    }
  }

  lemma NothingLeft(v: Volume, inode: Inode, k: nat)
    requires IsVolume(v) && IsInode(inode) && k == BlockCount(v, inode.size) <= |Pointers(v, inode)|
    ensures ReadFrom(v, inode, k) == Got([]) == Rest(v, inode, k)
  {
    hide Pointers, FileBlock, ReadBlock, BlockCount;
    CountIs(v, inode.size, k);
  }

  /** Reading a file block by block gives the flat file: the exact prefix when every block is
      there, nothing when one is missing, and never a panic within the pointer range. */
  lemma ReadIsFlat(v: Volume, inode: Inode)
    requires IsVolume(v) && IsInode(inode) && BlockCount(v, inode.size) <= |Pointers(v, inode)|
    ensures ReadFrom(v, inode, 0) == FlatFile(v, inode)
  {
    ReadsRest(v, inode, 0);
  }

  lemma {:induction false} BlocksAt(v: Volume, ps: seq<nat>, j: nat, i: nat)
    requires IsVolume(v) && Blocks(v, ps).Some? && j < |ps| && i < v.blockSize
    ensures 0 <= j * v.blockSize + i < |Blocks(v, ps).value| && 0 <= ps[j] * v.blockSize + i < |v.disk|
    ensures Blocks(v, ps).value[j * v.blockSize + i] == v.disk[ps[j] * v.blockSize + i]
  {
    hide ReadBlock;
    BlockIsStretch(v, ps[0]);
    assert |Blocks(v, ps).value| == j * v.blockSize + (|ps| - j) * v.blockSize;
    if j > 0 {
      BlocksAt(v, ps[1..], j - 1, i);
      assert j * v.blockSize == v.blockSize + (j - 1) * v.blockSize;
    }
  }

  /** Byte `i` of a file that could be read lies in the block its pointer list names. */
  lemma FileByte(v: Volume, inode: Inode, i: nat)
    requires IsVolume(v) && IsInode(inode) && BlockCount(v, inode.size) <= |Pointers(v, inode)|
    requires i < inode.size && ReadFrom(v, inode, 0).Got?
    ensures var file := ReadFrom(v, inode, 0).value;
            && |file| == inode.size && i / v.blockSize < |Pointers(v, inode)|
            && var at := Pointers(v, inode)[i / v.blockSize] * v.blockSize + i % v.blockSize;
            0 <= at < |v.disk| && file[i] == v.disk[at]
  {
    hide Pointers, ReadFrom, Blocks, BlockCount;
    ReadIsFlat(v, inode);
    var n := BlockCount(v, inode.size);
    CountIs(v, inode.size, n);
    CountIs(v, inode.size, i / v.blockSize);
    assert i == i / v.blockSize * v.blockSize + i % v.blockSize;
    BlocksAt(v, Pointers(v, inode)[0..n], i / v.blockSize, i % v.blockSize);
  }

  /** A file can be read exactly when every block it needs has a pointer to a block on the disk. */
  lemma ReadableWhen(v: Volume, inode: Inode)
    requires IsVolume(v) && IsInode(inode) && BlockCount(v, inode.size) <= |Pointers(v, inode)|
    ensures ReadFrom(v, inode, 0).Got? <==>
            forall k :: 0 <= k < |Pointers(v, inode)| && k * v.blockSize < inode.size ==>
                        Pointers(v, inode)[k] != 0 && (Pointers(v, inode)[k] + 1) * v.blockSize <= |v.disk|
  {
    hide Pointers, ReadFrom, Blocks, BlockCount;
    ReadIsFlat(v, inode);
    var n := BlockCount(v, inode.size);
    BlocksThere(v, Pointers(v, inode)[0..n]);
    forall k: nat ensures k * v.blockSize < inode.size <==> k < n {
      CountIs(v, inode.size, k);
    }
  }

  lemma {:induction false} BlocksThere(v: Volume, ps: seq<nat>)
    requires IsVolume(v)
    ensures Blocks(v, ps).Some? <==> forall k :: 0 <= k < |ps| ==> ps[k] != 0 && (ps[k] + 1) * v.blockSize <= |v.disk|
  {
    hide ReadBlock;
    if ps != [] {
      BlockIsStretch(v, ps[0]);
      BlocksThere(v, ps[1..]);
    }
  }

  method ReadFileBytes(v: Volume, inode: Inode) returns (r: Read<seq<Byte>>)
    requires IsVolume(v) && IsInode(inode)
    ensures r == ReadFrom(v, inode, 0)
  {
    hide FileBlock, ReadBlock, Then;
    var size := inode.size;
    var out := new Byte[size](_ => 0);
    var written, logical := 0, 0;
    ThenThen([], [], ReadFrom(v, inode, 0));
    assert out[..0] == [];
    while written < size
      invariant 0 <= written <= size
      invariant written < size ==> written == logical * v.blockSize
      invariant written == size ==> size <= logical * v.blockSize
      invariant Then(out[..written], ReadFrom(v, inode, logical)) == ReadFrom(v, inode, 0)
      decreases size - written
    {
      var blk := FileBlock(v, inode, logical);
      if !blk.Got? {
        GivesUp(out[..written]);
        return if blk.Absent? then Absent else Panicked;
      }
      var data := ReadBlock(v, blk.value);
      if data.None? {
        GivesUp(out[..written]);
        return Absent;
      }
      var count := if size - written < v.blockSize then size - written else v.blockSize;
      ThenThen(out[..written], data.value[..count], ReadFrom(v, inode, logical + 1));
      assert data.value[..count] == Piece(v, size, logical, data.value);
      CopyAt(out, written, data.value[..count]);
      assert (logical + 1) * v.blockSize == logical * v.blockSize + v.blockSize;
      written := written + count;
      logical := logical + 1;
    }
    ThenThen(out[..size], [], Absent);
    assert out[..] == out[..size];
    return Got(out[..]);
  }

  lemma GivesUp(done: seq<Byte>)
    ensures Then(done, Absent) == Absent && Then(done, Panicked) == Panicked
  {
  }

  method CopyAt(out: array<Byte>, at: nat, b: seq<Byte>)
    requires at + |b| <= out.Length
    modifies out
    ensures out[..at + |b|] == old(out[..at]) + b
  {
    var i := 0;
    while i < |b|
      invariant 0 <= i <= |b| && out[..at + i] == old(out[..at]) + b[..i]
    {
      out[at + i] := b[i];
      i := i + 1;
      assert out[..at + i] == out[..at + i - 1] + [b[i - 1]] && b[..i] == b[..i - 1] + [b[i - 1]];
    }
    assert b[..i] == b;
  }
}
