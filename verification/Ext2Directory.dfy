/** Directories of the ext2 driver: walking the variable-length records of a directory's
    blocks, looking up a name, and resolving a path. */
module Ext2Directory {

  import opened Options
  import opened Bytes
  import opened Ext2

  /** What the directory callback sees. */
  datatype Dirent = Dirent(name: seq<Byte>, ino: nat, fileType: Byte)

  /** Why a walk ended. */
  datatype Halt = RanOut | Stopped | Crashed

  datatype Scan = Scan(seen: seq<Dirent>, at: nat, halt: Halt)

  /** The callback: `None` never stops, `Some(name)` stops at that name. */
  type Target = Option<seq<Byte>>

  // ── The walk ───────────────────────────────────────────────────────────────

  /** The record loop over one block, from offset `at` on. */
  function ScanBlock(data: seq<Byte>, at: nat, target: Target): (r: Scan)
    ensures r.at >= at
    decreases |data| - at
  {
    if at + 8 > |data| then Scan([], at, RanOut)
    else
      var rec := Le16(data, at + 4);
      if rec < 8 || at + rec > |data| then Scan([], at, RanOut)
      else if Le32(data, at) == 0 then ScanBlock(data, at + rec, target)
      else if at + 8 + data[at + 6] > |data| then Scan([], at, Crashed)
      else
        var e := Dirent(data[at + 8..at + 8 + data[at + 6]], Le32(data, at), data[at + 7]);
        if target == Some(e.name) then Scan([e], at, Stopped)
        else
          var rest := ScanBlock(data, at + rec, target);
          Scan([e] + rest.seen, rest.at, rest.halt)
  }

  /** One past the last block the pointer structure can name. */
  function Limit(v: Volume): nat {
    12 + PerBlock(v) + PerBlock(v) * PerBlock(v)
  }

  /** The block loop of `readdir`. */
  function ScanDir(v: Volume, inode: Inode, logical: nat, fileOff: nat, target: Target): (seq<Dirent>, Halt)
    requires IsVolume(v) && IsInode(inode)
    decreases if logical <= Limit(v) then Limit(v) + 1 - logical else 0
  {
    if fileOff >= inode.size then ([], RanOut)
    else
      match FileBlock(v, inode, logical)
      case Absent => ([], RanOut)
      case Panicked => ([], Crashed)
      case Got(b) =>
        match ReadBlock(v, b)
        case None => ([], RanOut)
        case Some(data) =>
          PastLimit(v, inode, logical);
          var scan := ScanBlock(data, 0, target);
          if scan.halt != RanOut then (scan.seen, scan.halt)
          else
            var off := if scan.at >= v.blockSize then (logical + 1) * v.blockSize else fileOff + scan.at;
            var (seen, halt) := ScanDir(v, inode, logical + 1, off, target);
            (scan.seen + seen, halt)
  }

  /** Beyond the pointer structure there is no block: the walk ends or the index panics. */
  lemma PastLimit(v: Volume, inode: Inode, logical: nat)
    requires IsVolume(v) && IsInode(inode)
    ensures logical >= 12 + v.blockSize / 4 + v.blockSize / 4 * (v.blockSize / 4) ==>
              FileBlock(v, inode, logical) ==
              if inode.block[13] != 0 && (inode.block[13] + 1) * v.blockSize <= |v.disk| then Panicked else Absent
  {
    hide Le32, ReadBlock;
    if logical >= Limit(v) {
      var p := PerBlock(v);
      var l2 := logical - 12 - p;
      AtLeastQuotient(l2, p);
      BlockIsStretch(v, inode.block[13]);
    }
  }

  lemma AtLeastQuotient(n: nat, p: nat)
    requires 0 < p && n >= p * p
    ensures n / p >= p
  {
    var q := n / p;
    assert n == q * p + n % p;
    assert q < p ==> (q + 1) * p <= p * p;
  }

  function LookupIn(v: Volume, dir: nat, name: seq<Byte>): Read<Dirent>
    requires IsVolume(v)
  {
    match ReadInode(v, dir)
    case None => Absent
    case Some(inode) =>
      var (seen, halt) := ScanDir(v, inode, 0, 0, Some(name));
      match halt
      case Crashed => Panicked
      case RanOut => Absent
      case Stopped => if seen == [] then Absent else Got(seen[|seen| - 1])
  }

  // ── Well-formed directories ────────────────────────────────────────────────

  /** A directory record; `ino` 0 is an unused one, `pad` fills it to its length. */
  datatype Rec = Rec(ino: nat, fileType: Byte, name: seq<Byte>, pad: seq<Byte>)

  predicate IsRec(r: Rec) {
    r.ino < 0x1_0000_0000 && |r.name| < 256 && 8 + |r.name| + |r.pad| < 0x1_0000
  }

  function RecLen(r: Rec): nat {
    8 + |r.name| + |r.pad|
  }

  function Put16(n: nat): (b: seq<Byte>)
    requires n < 0x1_0000
    ensures |b| == 2
  {
    [n % 0x100, n / 0x100]
  }

  function Encode(r: Rec): (b: seq<Byte>)
    requires IsRec(r)
    ensures |b| == RecLen(r)
  {
    Put16(r.ino % 0x1_0000) + Put16(r.ino / 0x1_0000) + Put16(RecLen(r)) + [|r.name|, r.fileType] + r.name + r.pad
  }

  ghost predicate AreRecs(rs: seq<Rec>) {
    forall i :: 0 <= i < |rs| ==> IsRec(rs[i])
  }

  function EncodeAll(rs: seq<Rec>): seq<Byte>
    requires forall i :: 0 <= i < |rs| ==> IsRec(rs[i])
  {
    if rs == [] then [] else Encode(rs[0]) + EncodeAll(rs[1..])
  }

  function Live(rs: seq<Rec>): seq<Dirent> {
    if rs == [] then []
    else (if rs[0].ino == 0 then [] else [Dirent(rs[0].name, rs[0].ino, rs[0].fileType)]) + Live(rs[1..])
  }

  /** The entries a callback sees: all, or up to and with the first one it stops at. */
  function Seen(es: seq<Dirent>, target: Target): seq<Dirent> {
    if es == [] then []
    else if target == Some(es[0].name) then [es[0]]
    else [es[0]] + Seen(es[1..], target)
  }

  predicate Hit(es: seq<Dirent>, target: Target) {
    exists i :: 0 <= i < |es| && target == Some(es[i].name)
  }

  /** Decoding a record at its place gives its fields back. */
  lemma DecodesRecord(data: seq<Byte>, at: nat, r: Rec, rest: seq<Byte>)
    requires IsRec(r) && at <= |data| && data[at..] == Encode(r) + rest
    ensures at + 8 <= |data| && at + RecLen(r) <= |data|
    ensures Le16(data, at + 4) == RecLen(r) && Le32(data, at) == r.ino
    ensures data[at + 6] == |r.name| && data[at + 7] == r.fileType
    ensures data[at + 8..at + 8 + |r.name|] == r.name
    ensures data[at + RecLen(r)..] == rest
  {
  }

  function AsDirent(r: Rec): Dirent {
    Dirent(r.name, r.ino, r.fileType)
  }

  /** One round of the record loop. */
  lemma ScanOne(data: seq<Byte>, at: nat, r: Rec, rest: seq<Byte>, target: Target)
    requires IsRec(r) && at <= |data| && data[at..] == Encode(r) + rest
    ensures ScanBlock(data, at, target) ==
            var more := ScanBlock(data, at + RecLen(r), target);
            if r.ino == 0 then more
            else if target == Some(r.name) then Scan([AsDirent(r)], at, Stopped)
            else Scan([AsDirent(r)] + more.seen, more.at, more.halt)
  {
    hide Encode, Le16, Le32;
    DecodesRecord(data, at, r, rest);
  }

  lemma LiveStep(rs: seq<Rec>, target: Target)
    requires rs != []
    ensures var es, more := Live(rs), Live(rs[1..]);
            && Seen(es, target) == (if rs[0].ino == 0 then Seen(more, target)
                                    else if target == Some(rs[0].name) then [AsDirent(rs[0])]
                                    else [AsDirent(rs[0])] + Seen(more, target))
            && (Hit(es, target) <==> (rs[0].ino != 0 && target == Some(rs[0].name)) || Hit(more, target))
  {
    hide Hit;
    var es := Live(rs);
    if rs[0].ino != 0 {
      assert es[1..] == Live(rs[1..]);
      HitStep(es, target);
    } else {
      assert es == Live(rs[1..]);
    }
  }

  /** Bytes that are no record: fewer than eight, or of a length below eight or past the end. */
  predicate Torn(tail: seq<Byte>) {
    |tail| < 8 || Le16(tail, 4) < 8 || Le16(tail, 4) > |tail|
  }

  /** A live record whose name is longer than the bytes that are left. */
  predicate Overruns(tail: seq<Byte>) {
    !Torn(tail) && Le32(tail, 0) != 0 && 8 + tail[6] > |tail|
  }

  lemma StopsAtTail(data: seq<Byte>, at: nat, tail: seq<Byte>, target: Target)
    requires at <= |data| && data[at..] == tail && (Torn(tail) || Overruns(tail))
    ensures ScanBlock(data, at, target) == Scan([], at, if Overruns(tail) then Crashed else RanOut)
  {
    assert |data| - at == |tail|;
    if |tail| >= 8 {
      assert forall i :: 0 <= i < 8 ==> data[at + i] == tail[i];
    }
  }

  /** The walk sees each live record of a block, once and in order, up to the first bytes that are
      no record; a name that runs past the block is an index out of range. */
  lemma {:induction false} ScansUpTo(data: seq<Byte>, at: nat, rs: seq<Rec>, tail: seq<Byte>, target: Target)
    requires AreRecs(rs) && at <= |data| && data[at..] == EncodeAll(rs) + tail && (Torn(tail) || Overruns(tail))
    ensures var scan := ScanBlock(data, at, target);
            && scan.seen == Seen(Live(rs), target)
            && scan.halt == (if Hit(Live(rs), target) then Stopped else if Overruns(tail) then Crashed else RanOut)
            && (scan.halt == RanOut ==> scan.at == |data| - |tail|)
    decreases |rs|
  {
    hide Encode, IsRec, Live, Seen, Hit, ScanBlock, Torn, Overruns;
    if rs == [] {
      assert data[at..] == tail;
      StopsAtTail(data, at, tail, target);
      NothingLive(target);
    } else {
      var rest := EncodeAll(rs[1..]) + tail;
      assert data[at..] == Encode(rs[0]) + rest;
      ScanOne(data, at, rs[0], rest, target);
      DecodesRecord(data, at, rs[0], rest);
      ScansUpTo(data, at + RecLen(rs[0]), rs[1..], tail, target);
      LiveStep(rs, target);
    }
  }

  lemma NothingLive(target: Target)
    ensures Seen(Live([]), target) == [] && !Hit(Live([]), target)
  {
  }

  /** On a block of whole records the walk sees each live one, once, in order. */
  lemma ScansRecords(data: seq<Byte>, at: nat, rs: seq<Rec>, target: Target)
    requires AreRecs(rs) && at <= |data| && data[at..] == EncodeAll(rs)
    ensures var scan := ScanBlock(data, at, target);
            && scan.seen == Seen(Live(rs), target)
            && scan.halt == (if Hit(Live(rs), target) then Stopped else RanOut)
            && (scan.halt == RanOut ==> scan.at == |data|)
  {
    hide IsRec, Live, Seen, Hit, ScanBlock;
    assert EncodeAll(rs) + [] == EncodeAll(rs);
    ScansUpTo(data, at, rs, [], target);
  }

  lemma HitStep(es: seq<Dirent>, target: Target)
    ensures Hit(es, target) <==> es != [] && (target == Some(es[0].name) || Hit(es[1..], target))
  {
  }

  /** A directory whose blocks are whole records and whose size is that of its blocks. */
  ghost predicate IsDirectory(v: Volume, inode: Inode, blocks: seq<seq<Rec>>)
    requires IsVolume(v) && IsInode(inode)
  {
    inode.size == |blocks| * v.blockSize && forall k :: 0 <= k < |blocks| ==> Stored(v, inode, k, blocks[k])
  }

  ghost predicate Stored(v: Volume, inode: Inode, k: nat, rs: seq<Rec>)
    requires IsVolume(v) && IsInode(inode)
  {
    && AreRecs(rs) && FileBlock(v, inode, k).Got?
    && ReadBlock(v, FileBlock(v, inode, k).value) == Some(EncodeAll(rs))
  }

  function AllLive(blocks: seq<seq<Rec>>): seq<Dirent> {
    if blocks == [] then [] else Live(blocks[0]) + AllLive(blocks[1..])
  }

  lemma {:induction false} SeenJoined(a: seq<Dirent>, b: seq<Dirent>, target: Target)
    ensures Seen(a + b, target) == if Hit(a, target) then Seen(a, target) else Seen(a, target) + Seen(b, target)
    ensures Hit(a + b, target) <==> Hit(a, target) || Hit(b, target)
  {
    hide Hit;
    HitStep(a, target);
    if a == [] {
      assert a + b == b;
    } else {
      HitStep(a + b, target);
      assert (a + b)[1..] == a[1..] + b;
      SeenJoined(a[1..], b, target);
    }
  }

  lemma DirStep(v: Volume, inode: Inode, rs: seq<Rec>, k: nat, target: Target)
    requires IsVolume(v) && IsInode(inode) && Stored(v, inode, k, rs) && k * v.blockSize < inode.size
    ensures ScanDir(v, inode, k, k * v.blockSize, target) ==
            if Hit(Live(rs), target) then (Seen(Live(rs), target), Stopped)
            else var (seen, halt) := ScanDir(v, inode, k + 1, (k + 1) * v.blockSize, target);
                 (Seen(Live(rs), target) + seen, halt)
  {
    hide ScanBlock, Hit, Seen, Live, EncodeAll, FileBlock, ReadSectors;
    var data := EncodeAll(rs);
    assert data[0..] == data;
    ScansRecords(data, 0, rs, target);
  }

  /** A block that is torn somewhere gives the records before the tear; the walk then goes on in the
      next block, its file offset advanced only by what it saw. A name that overruns ends it. */
  lemma TornStep(v: Volume, inode: Inode, rs: seq<Rec>, tail: seq<Byte>, k: nat, off: nat, target: Target)
    requires IsVolume(v) && IsInode(inode) && AreRecs(rs) && off < inode.size && FileBlock(v, inode, k).Got?
    requires ReadBlock(v, FileBlock(v, inode, k).value) == Some(EncodeAll(rs) + tail)
    requires tail != [] && (Torn(tail) || Overruns(tail))
    ensures |tail| <= v.blockSize
    ensures ScanDir(v, inode, k, off, target) ==
            if Hit(Live(rs), target) then (Seen(Live(rs), target), Stopped)
            else if Overruns(tail) then (Seen(Live(rs), target), Crashed)
            else var (seen, halt) := ScanDir(v, inode, k + 1, off + v.blockSize - |tail|, target);
                 (Seen(Live(rs), target) + seen, halt)
  {
    hide ScanBlock, Hit, Seen, Live, EncodeAll, FileBlock, ReadSectors, Torn, Overruns;
    var data := EncodeAll(rs) + tail;
    assert data[0..] == data;
    ScansUpTo(data, 0, rs, tail, target);
  }

  /** `readdir` visits each live entry of a well-formed directory once, in order, until the
      callback stops it. */
  lemma {:induction false} ScansDirectory(v: Volume, inode: Inode, blocks: seq<seq<Rec>>, k: nat, target: Target)
    requires IsVolume(v) && IsInode(inode) && IsDirectory(v, inode, blocks) && k <= |blocks|
    ensures ScanDir(v, inode, k, k * v.blockSize, target) ==
            (Seen(AllLive(blocks[k..]), target), if Hit(AllLive(blocks[k..]), target) then Stopped else RanOut)
    decreases |blocks| - k
  {
    hide ScanDir, Hit, Seen, Live, Stored;
    if k == |blocks| {
      DirEnds(v, inode, k, target);
    } else {
      assert k * v.blockSize < inode.size by { assert (k + 1) * v.blockSize <= |blocks| * v.blockSize; }
      DirStep(v, inode, blocks[k], k, target);
      ScansDirectory(v, inode, blocks, k + 1, target);
      assert blocks[k..][1..] == blocks[k + 1..];
      SeenJoined(Live(blocks[k]), AllLive(blocks[k + 1..]), target);
    }
  }

  lemma DirEnds(v: Volume, inode: Inode, k: nat, target: Target)
    requires IsVolume(v) && IsInode(inode) && inode.size == k * v.blockSize
    ensures ScanDir(v, inode, k, k * v.blockSize, target) == ([], RanOut)
    ensures Seen([], target) == [] && !Hit([], target)
  {
  }

  // ── Lookup and paths ───────────────────────────────────────────────────────

  function FirstNamed(es: seq<Dirent>, name: seq<Byte>): Read<Dirent> {
    if es == [] then Absent else if es[0].name == name then Got(es[0]) else FirstNamed(es[1..], name)
  }

  lemma {:induction false} LastSeenIsFirst(es: seq<Dirent>, name: seq<Byte>)
    ensures !Hit(es, Some(name)) ==> FirstNamed(es, name) == Absent
    ensures var seen := Seen(es, Some(name));
            Hit(es, Some(name)) ==> seen != [] && FirstNamed(es, name) == Got(seen[|seen| - 1])
  {
    hide Hit;
    HitStep(es, Some(name));
    if es != [] {
      LastSeenIsFirst(es[1..], name);
    }
  }

  /** Directories by inode number, as their records. */
  type Tree = map<nat, seq<seq<Rec>>>

  ghost predicate Holds(v: Volume, tree: Tree)
    requires IsVolume(v)
  {
    forall ino :: ino in tree ==>
      ReadInode(v, ino).Some? && IsDirectory(v, ReadInode(v, ino).value, tree[ino])
  }

  function LookupTree(tree: Tree, dir: nat, name: seq<Byte>): Read<Dirent>
    requires dir in tree
  {
    FirstNamed(AllLive(tree[dir]), name)
  }

  /** A lookup on disk is a lookup in the tree. */
  lemma LookupIsFirstNamed(v: Volume, tree: Tree, dir: nat, name: seq<Byte>)
    requires IsVolume(v) && Holds(v, tree) && dir in tree
    ensures LookupIn(v, dir, name) == LookupTree(tree, dir, name)
  {
    hide ScanDir, Hit, Seen, AllLive, IsDirectory, ReadInode;
    var blocks := tree[dir];
    assert blocks[0..] == blocks;
    ScansDirectory(v, ReadInode(v, dir).value, blocks, 0, Some(name));
    LastSeenIsFirst(AllLive(blocks), name);
  }

  const SLASH: Byte := 47
  const ROOT: nat := 2
  const DIRECTORY: Byte := 2

  /** The pieces between slashes, empty ones included. */
  function Split(s: seq<Byte>): (r: seq<seq<Byte>>)
    ensures |r| >= 1
  {
    if s == [] then [[]]
    else if s[0] == SLASH then [[]] + Split(s[1..])
    else var r := Split(s[1..]); [[s[0]] + r[0]] + r[1..]
  }

  function Unslashed(path: seq<Byte>): seq<Byte> {
    if path != [] && path[0] == SLASH then path[1..] else path
  }

  /** Component by component on disk, skipping empty pieces. */
  function ResolveFrom(v: Volume, ino: nat, fileType: Byte, pieces: seq<seq<Byte>>): Read<(nat, Byte)>
    requires IsVolume(v)
    decreases |pieces|
  {
    if pieces == [] then Got((ino, fileType))
    else if pieces[0] == [] then ResolveFrom(v, ino, fileType, pieces[1..])
    else
      match LookupIn(v, ino, pieces[0])
      case Got(e) => ResolveFrom(v, e.ino, e.fileType, pieces[1..])
      case Absent => Absent
      case Panicked => Panicked
  }

  /** Component by component in the tree. */
  function WalkTree(tree: Tree, ino: nat, fileType: Byte, names: seq<seq<Byte>>): Read<(nat, Byte)>
    decreases |names|
  {
    if names == [] then Got((ino, fileType))
    else if ino !in tree then Absent
    else
      match LookupTree(tree, ino, names[0])
      case Got(e) => WalkTree(tree, e.ino, e.fileType, names[1..])
      case Absent => Absent
      case Panicked => Panicked
  }

  /** Where a walk ends: the last inode it stood at, that inode's type, and the names it had left. */
  function Reach(tree: Tree, ino: nat, fileType: Byte, names: seq<seq<Byte>>): (nat, Byte, seq<seq<Byte>>)
    decreases |names|
  {
    if names == [] || ino !in tree then (ino, fileType, names)
    else
      match LookupTree(tree, ino, names[0])
      case Got(e) => Reach(tree, e.ino, e.fileType, names[1..])
      case Absent => (ino, fileType, names)
      case Panicked => (ino, fileType, names)
  }

  /** Every inode the walk looks a name up in is a directory of the tree. */
  predicate Stays(tree: Tree, ino: nat, fileType: Byte, names: seq<seq<Byte>>) {
    var (last, _, left) := Reach(tree, ino, fileType, names);
    left == [] || last in tree
  }

  /** Entries marked as directories name directories of the tree. */
  ghost predicate Typed(tree: Tree) {
    forall dir, e :: dir in tree && e in AllLive(tree[dir]) && e.fileType == DIRECTORY ==> e.ino in tree
  }

  /** Every component found, but the last of the path, is marked as a directory. */
  predicate Directories(tree: Tree, ino: nat, names: seq<seq<Byte>>)
    decreases |names|
  {
    |names| <= 1 || ino !in tree ||
    match LookupTree(tree, ino, names[0])
    case Got(e) => e.fileType == DIRECTORY && Directories(tree, e.ino, names[1..])
    case Absent => true
    case Panicked => true
  }

  function NonEmpty(pieces: seq<seq<Byte>>): seq<seq<Byte>> {
    if pieces == [] then []
    else (if pieces[0] == [] then [] else [pieces[0]]) + NonEmpty(pieces[1..])
  }

  lemma {:induction false} SkipsEmpty(v: Volume, ino: nat, fileType: Byte, pieces: seq<seq<Byte>>)
    requires IsVolume(v)
    ensures ResolveFrom(v, ino, fileType, pieces) == ResolveFrom(v, ino, fileType, NonEmpty(pieces))
    decreases |pieces|
  {
    hide LookupIn;
    if pieces != [] {
      if pieces[0] == [] {
        EmptyHead(pieces);
        SkipsEmpty(v, ino, fileType, pieces[1..]);
      } else {
        assert NonEmpty(pieces)[1..] == NonEmpty(pieces[1..]);
        var e := LookupIn(v, ino, pieces[0]);
        if e.Got? {
          SkipsEmpty(v, e.value.ino, e.value.fileType, pieces[1..]);
        }
      }
    }
  }

  ghost predicate NoneEmpty(names: seq<seq<Byte>>) {
    forall i :: 0 <= i < |names| ==> names[i] != []
  }

  /** On disk the walk goes on from wherever it leaves the tree, scanning that inode's data as
      if it were a directory; in the tree it finds nothing there. */
  lemma {:induction false} ResolveIsWalk(v: Volume, tree: Tree, ino: nat, fileType: Byte, names: seq<seq<Byte>>)
    requires IsVolume(v) && Holds(v, tree) && NoneEmpty(names)
    ensures var (last, kind, left) := Reach(tree, ino, fileType, names);
            && (Stays(tree, ino, fileType, names) ==>
                  ResolveFrom(v, ino, fileType, names) == WalkTree(tree, ino, fileType, names))
            && (!Stays(tree, ino, fileType, names) ==>
                  && WalkTree(tree, ino, fileType, names) == Absent
                  && ResolveFrom(v, ino, fileType, names) == ResolveFrom(v, last, kind, left)
                  && left != [] && left[0] != [])
    decreases |names|
  {
    hide Holds, LookupIn, LookupTree;
    if names != [] && ino in tree {
      LookupIsFirstNamed(v, tree, ino, names[0]);
      var e := LookupTree(tree, ino, names[0]);
      if e.Got? {
        ResolveIsWalk(v, tree, e.value.ino, e.value.fileType, names[1..]);
      }
    }
  }

  lemma {:induction false} FirstNamedIsOne(es: seq<Dirent>, name: seq<Byte>)
    ensures FirstNamed(es, name).Got? ==> FirstNamed(es, name).value in es
  {
    if es != [] && es[0].name != name {
      FirstNamedIsOne(es[1..], name);
    }
  }

  lemma {:induction false} DirectoriesStay(tree: Tree, ino: nat, fileType: Byte, names: seq<seq<Byte>>)
    requires Typed(tree) && ino in tree && Directories(tree, ino, names)
    ensures Stays(tree, ino, fileType, names)
    decreases |names|
  {
    hide AllLive, FirstNamed;
    if names != [] {
      FirstNamedIsOne(AllLive(tree[ino]), names[0]);
      var e := LookupTree(tree, ino, names[0]);
      if |names| == 1 && e.Got? {
        assert Reach(tree, e.value.ino, e.value.fileType, names[1..]).2 == [];
      } else if e.Got? {
        DirectoriesStay(tree, e.value.ino, e.value.fileType, names[1..]);
      }
    }
  }

  /** Outside the tree nothing is found either when the inode cannot be read or is empty. */
  lemma NothingInEmpty(v: Volume, ino: nat, name: seq<Byte>)
    requires IsVolume(v) && (ReadInode(v, ino).Some? ==> ReadInode(v, ino).value.size == 0)
    ensures LookupIn(v, ino, name) == Absent
  {
    hide ReadInode;
  }

  ghost predicate Plain(name: seq<Byte>) {
    name != [] && SLASH !in name
  }

  function Join(names: seq<seq<Byte>>): seq<Byte> {
    if names == [] then [] else [SLASH] + names[0] + Join(names[1..])
  }

  lemma {:induction false} SplitName(name: seq<Byte>, rest: seq<Byte>)
    requires SLASH !in name && (rest == [] || rest[0] == SLASH)
    ensures Split(name + rest) == [name] + Split(rest)[1..]
  {
    if name == [] {
      assert name + rest == rest;
    } else {
      assert (name + rest)[1..] == name[1..] + rest;
      SplitName(name[1..], rest);
      var r := Split(name[1..] + rest);
      assert r[0] == name[1..] && r[1..] == Split(rest)[1..];
      assert [name[0]] + name[1..] == name;
    }
  }

  lemma SplitSlash(s: seq<Byte>)
    ensures Split([SLASH] + s) == [[]] + Split(s)
  {
  }

  lemma NonEmptyCons(name: seq<Byte>, tail: seq<seq<Byte>>)
    ensures NonEmpty([name] + tail) == (if name == [] then [] else [name]) + NonEmpty(tail)
  {
  }

  /** Splitting a path joined from plain names gives the names back. */
  lemma {:induction false} SplitJoined(names: seq<seq<Byte>>)
    requires forall i :: 0 <= i < |names| ==> Plain(names[i])
    ensures NonEmpty(Split(Join(names))) == names
    ensures Split(Join(names))[0] == []
  {
    hide NonEmpty, Split;
    if names == [] {
      NothingToSplit();
    } else {
      var name, rest := names[0], Join(names[1..]);
      SplitJoined(names[1..]);
      SplitName(name, rest);
      assert Join(names) == [SLASH] + (name + rest);
      SplitSlash(name + rest);
      var tail := Split(rest)[1..];
      assert Split(rest) == [[]] + tail;
      NonEmptyCons([], tail);
      NonEmptyCons(name, tail);
      NonEmptyCons([], [name] + tail);
    }
  }

  lemma NothingToSplit()
    ensures Split([]) == [[]] && NonEmpty(Split([])) == []
  {
  }

  lemma EmptyHead(pieces: seq<seq<Byte>>)
    requires pieces != [] && pieces[0] == []
    ensures NonEmpty(pieces[1..]) == NonEmpty(pieces)
  {
  }

  function ResolvePlain(v: Volume, names: seq<seq<Byte>>): Read<(nat, Byte)>
    requires IsVolume(v)
  {
    Resolve(v, Join(names))
  }

  lemma {:induction false} SplitAround(a: seq<Byte>, b: seq<Byte>)
    ensures Split(a + [SLASH] + b) == Split(a) + Split(b)
  {
    hide Split;
    if a == [] {
      assert a + [SLASH] + b == [SLASH] + b;
      SplitSlash(b);
      NothingToSplit();
    } else {
      var more := a[1..] + [SLASH] + b;
      SplitAround(a[1..], b);
      assert a + [SLASH] + b == [a[0]] + more && a == [a[0]] + a[1..];
      SplitCons(a[0], more);
      SplitCons(a[0], a[1..]);
    }
  }

  lemma SplitCons(c: Byte, s: seq<Byte>)
    ensures Split([c] + s) == if c == SLASH then [[]] + Split(s) else [[c] + Split(s)[0]] + Split(s)[1..]
  {
    assert ([c] + s)[1..] == s;
  }

  lemma {:induction false} NonEmptyJoined(a: seq<seq<Byte>>, b: seq<seq<Byte>>)
    ensures NonEmpty(a + b) == NonEmpty(a) + NonEmpty(b)
  {
    if a == [] {
      assert a + b == b;
    } else {
      assert (a + b)[1..] == a[1..] + b;
      NonEmptyJoined(a[1..], b);
    }
  }

  /** What `resolve_path` gives for any path. */
  function Resolve(v: Volume, path: seq<Byte>): Read<(nat, Byte)>
    requires IsVolume(v)
  {
    ResolveFrom(v, ROOT, DIRECTORY, Split(Unslashed(path)))
  }

  lemma ResolveByNames(v: Volume, a: seq<Byte>, b: seq<Byte>)
    requires IsVolume(v) && NonEmpty(Split(a)) == NonEmpty(Split(b))
    ensures Resolve(v, a) == Resolve(v, b)
  {
    hide ResolveFrom, Split, NonEmpty, Unslashed;
    LeadingSlash(a);
    LeadingSlash(b);
    SkipsEmpty(v, ROOT, DIRECTORY, Split(Unslashed(a)));
    SkipsEmpty(v, ROOT, DIRECTORY, Split(Unslashed(b)));
  }

  /** The root is inode 2, a directory. */
  lemma RootResolves(v: Volume)
    requires IsVolume(v)
    ensures Resolve(v, []) == Resolve(v, [0x2F]) == Got((2, 2))
  {
    NothingToSplit();
    SkipsEmpty(v, ROOT, DIRECTORY, Split([]));
    assert Unslashed([0x2F]) == [];
  }

  /** A slash at the start, at the end, or after another one makes no difference to a path. */
  lemma SlashesDoNotMatter(v: Volume, a: seq<Byte>, b: seq<Byte>)
    requires IsVolume(v)
    ensures Resolve(v, [0x2F] + a) == Resolve(v, a) == Resolve(v, a + [0x2F])
    ensures Resolve(v, a + [0x2F, 0x2F] + b) == Resolve(v, a + [0x2F] + b)
  {
    hide Resolve, Split, NonEmpty;
    NothingToSplit();
    SplitAround([], a);
    SplitAround(a, []);
    SplitAround(a, b);
    SplitAround(a + [SLASH], b);
    NonEmptyJoined(Split([]), Split(a));
    NonEmptyJoined(Split(a), Split([]));
    NonEmptyJoined(Split(a), Split(b));
    NonEmptyJoined(Split(a) + Split([]), Split(b));
    assert [] + [SLASH] + a == [0x2F] + a && a + [SLASH] + [] == a + [0x2F];
    assert a + [SLASH] + [SLASH] + b == a + [0x2F, 0x2F] + b;
    ResolveByNames(v, [0x2F] + a, a);
    ResolveByNames(v, a + [0x2F], a);
    ResolveByNames(v, a + [0x2F, 0x2F] + b, a + [0x2F] + b);
  }

  /** Outside the tree one raw scan of the inode reached decides how a path goes on. */
  lemma ScanDecides(v: Volume, ino: nat, fileType: Byte, left: seq<seq<Byte>>)
    requires IsVolume(v) && left != [] && left[0] != []
    ensures ResolveFrom(v, ino, fileType, left) ==
            match LookupIn(v, ino, left[0])
            case Absent => Absent
            case Panicked => Panicked
            case Got(e) => ResolveFrom(v, e.ino, e.fileType, left[1..])
  {
    hide LookupIn;
  }

  /** An absolute path of plain names resolves to what walking those names in the tree gives when
      the walk stays in the tree. Otherwise the tree has nothing there, and what resolving gives is
      decided by one raw scan of the inode reached, for the next name: nothing found agrees, a panic
      does not, and an entry found sends the rest of the path on from it; so when that name is the
      last, resolving agrees if and only if the scan does not find it. */
  lemma ResolvesPath(v: Volume, tree: Tree, names: seq<seq<Byte>>)
    requires IsVolume(v) && Holds(v, tree)
    requires forall i :: 0 <= i < |names| ==> Plain(names[i])
    ensures var (last, _, left) := Reach(tree, ROOT, DIRECTORY, names);
            var walked, resolved := WalkTree(tree, ROOT, DIRECTORY, names), ResolvePlain(v, names);
            if Stays(tree, ROOT, DIRECTORY, names) then resolved == walked
            else
              && walked == Absent && left != []
              && (match LookupIn(v, last, left[0])
                  case Absent => resolved == Absent
                  case Panicked => resolved == Panicked
                  case Got(e) => resolved == ResolveFrom(v, e.ino, e.fileType, left[1..]))
              && (|left| == 1 ==> (resolved == walked <==> LookupIn(v, last, left[0]) == Absent))
  {
    hide ResolveFrom, WalkTree, Stays, Reach, Holds, LookupIn;
    SplitJoined(names);
    var path := Join(names);
    assert NonEmpty(Split(Unslashed(path))) == names by { LeadingSlash(path); }
    SkipsEmpty(v, ROOT, DIRECTORY, Split(Unslashed(path)));
    ResolveIsWalk(v, tree, ROOT, DIRECTORY, names);
    var (last, kind, left) := Reach(tree, ROOT, DIRECTORY, names);
    if !Stays(tree, ROOT, DIRECTORY, names) {
      ScanDecides(v, last, kind, left);
      if |left| == 1 && LookupIn(v, last, left[0]).Got? {
        var e := LookupIn(v, last, left[0]).value;
        PathEnds(v, e.ino, e.fileType, left[1..]);
      }
    }
  }

  lemma PathEnds(v: Volume, ino: nat, fileType: Byte, left: seq<seq<Byte>>)
    requires IsVolume(v) && left == []
    ensures ResolveFrom(v, ino, fileType, left) == Got((ino, fileType))
  {
  }

  /** What a caller can see beforehand: on a tree whose directory entries name directories, a path
      each of whose components but the last is marked as a directory resolves as in the tree; and so
      does one that goes through another inode, when that inode is unreadable or empty. */
  lemma ResolvesDirectories(v: Volume, tree: Tree, names: seq<seq<Byte>>)
    requires IsVolume(v) && Holds(v, tree) && Typed(tree) && ROOT in tree
    requires forall i :: 0 <= i < |names| ==> Plain(names[i])
    ensures var last := ReadInode(v, Reach(tree, ROOT, DIRECTORY, names).0);
            Directories(tree, ROOT, names) || last.None? || last.value.size == 0 ==>
              ResolvePlain(v, names) == WalkTree(tree, ROOT, DIRECTORY, names)
  {
    hide WalkTree, Reach, Holds, ReadInode, LookupIn, ResolvePlain, Directories, Typed;
    ResolvesPath(v, tree, names);
    var (last, kind, left) := Reach(tree, ROOT, DIRECTORY, names);
    if Directories(tree, ROOT, names) {
      DirectoriesStay(tree, ROOT, DIRECTORY, names);
    } else if !Stays(tree, ROOT, DIRECTORY, names) {
      ResolveIsWalk(v, tree, ROOT, DIRECTORY, names);
      if ReadInode(v, last).Some? ==> ReadInode(v, last).value.size == 0 {
        NothingInEmpty(v, last, left[0]);
      }
    }
  }

  lemma LeadingSlash(path: seq<Byte>)
    ensures NonEmpty(Split(Unslashed(path))) == NonEmpty(Split(path))
  {
  }

  // ── A file read as a directory ─────────────────────────────────────────────

  function Put32(n: nat): (b: seq<Byte>)
    requires n < 0x1_0000_0000
    ensures |b| == 4
  {
    Put16(n % 0x1_0000) + Put16(n / 0x1_0000)
  }

  /** An inode of one block. */
  function OneBlock(block: nat): (b: seq<Byte>)
    requires block < 0x1_0000_0000
    ensures |b| == 128
  {
    Zeros(4) + Put32(1024) + Zeros(32) + Put32(block) + Zeros(84)
  }

  lemma Le32Put(data: seq<Byte>, at: nat, n: nat)
    requires n < 0x1_0000_0000 && at + 4 <= |data| && data[at..at + 4] == Put32(n)
    ensures Le32(data, at) == n
  {
    var b := Put32(n);
    assert forall i :: 0 <= i < 4 ==> data[at + i] == b[i];
  }

  lemma SliceOfSlice(s: seq<Byte>, at: nat, n: nat, i: nat, j: nat)
    requires at + n <= |s| && i <= j <= n
    ensures s[at..at + n][i..j] == s[at + i..at + j]
  {
    var a, b := s[at..at + n][i..j], s[at + i..at + j];
    assert |a| == |b| && forall k :: 0 <= k < |a| ==> a[k] == b[k];
  }

  lemma OneBlockIs(data: seq<Byte>, at: nat, block: nat)
    requires block < 0x1_0000_0000 && at + 128 <= |data| && data[at..at + 128] == OneBlock(block)
    ensures InodeAt(data, at).size == 1024 && InodeAt(data, at).block[0] == block
  {
    hide Le32, Put32;
    var b := OneBlock(block);
    assert b[4..8] == Put32(1024) && b[40..44] == Put32(block);
    SliceOfSlice(data, at, 128, 4, 8);
    SliceOfSlice(data, at, 128, 40, 44);
    Le32Put(data, at + 4, 1024);
    Le32Put(data, at + 40, block);
  }

  /** The single record of a block, padded to fill it. */
  function Filling(ino: nat, name: Byte): (r: Rec)
    requires ino < 0x1_0000_0000
    ensures IsRec(r) && RecLen(r) == 1024
  {
    Rec(ino, 1, [name], Zeros(1015))
  }

  const F: Byte := 102
  const X: Byte := 120

  /** Inode 2 is the root, whose one entry is a regular file, inode 3. The file's one block
      holds bytes that read as a directory entry. */
  function Misleading(): (v: Volume)
    ensures IsVolume(v) && v.blockSize == 1024
  {
    Volume(1024, 4, 128, [1], Zeros(1024) + MisleadingTable() + Encode(Filling(3, F)) + Encode(Filling(4, X)))
  }

  function MisleadingTable(): (b: seq<Byte>)
    ensures |b| == 1024
  {
    Zeros(128) + OneBlock(2) + OneBlock(3) + Zeros(640)
  }

  lemma Middle(a: seq<Byte>, b: seq<Byte>, c: seq<Byte>)
    ensures (a + b + c)[|a|..|a| + |b|] == b
  {
  }

  lemma MisleadingInode(ino: nat)
    requires ino in {2, 3}
    ensures var inode := ReadInode(Misleading(), ino);
            inode.Some? && inode.value.size == 1024 && inode.value.block[0] == ino
  {
    hide Encode, OneBlock, Filling, InodeAt;
    var v, table := Misleading(), MisleadingTable();
    var data := table[..512];
    assert v.disk == Zeros(1024) + table + (Encode(Filling(3, F)) + Encode(Filling(4, X)));
    Middle(Zeros(1024), table, Encode(Filling(3, F)) + Encode(Filling(4, X)));
    assert v.disk[1024..1536] == v.disk[1024..2048][..512];
    assert ReadSectors(v, 2, 1) == Some(data);
    if ino == 2 {
      assert table == Zeros(128) + OneBlock(2) + (OneBlock(3) + Zeros(640));
      Middle(Zeros(128), OneBlock(2), OneBlock(3) + Zeros(640));
    } else {
      Middle(Zeros(128) + OneBlock(2), OneBlock(3), Zeros(640));
    }
    var at := 128 * (ino - 1);
    assert data[at..at + 128] == table[at..at + 128];
    OneBlockIs(data, at, ino);
  }

  lemma MisleadingBlocks()
    ensures ReadBlock(Misleading(), 2) == Some(Encode(Filling(3, F)))
    ensures ReadBlock(Misleading(), 3) == Some(Encode(Filling(4, X)))
  {
    hide Encode, OneBlock, Filling, MisleadingTable, ReadSectors;
    var v := Misleading();
    BlockIsStretch(v, 2);
    BlockIsStretch(v, 3);
    var front, f, x := Zeros(1024) + MisleadingTable(), Encode(Filling(3, F)), Encode(Filling(4, X));
    Middle(front, f, x);
    assert v.disk == (front + f) + x + [];
    Middle(front + f, x, []);
  }

  lemma MisleadingDirectory(ino: nat, name: Byte)
    requires (ino, name) in {(2, F), (3, X)}
    ensures ReadInode(Misleading(), ino).Some?
    ensures IsDirectory(Misleading(), ReadInode(Misleading(), ino).value, [[Filling(ino + 1, name)]])
  {
    hide Encode, ReadInode, ReadBlock, Filling, Misleading;
    MisleadingInode(ino);
    MisleadingBlocks();
    var rs := [Filling(ino + 1, name)];
    assert EncodeAll(rs) == Encode(rs[0]) + EncodeAll([]) == Encode(rs[0]);
  }

  lemma FillingNamed(ino: nat, name: Byte)
    requires 0 < ino < 0x1_0000_0000
    ensures FirstNamed(AllLive([[Filling(ino, name)]]), [name]) == Got(Dirent([name], ino, 1))
    ensures AllLive([[Filling(ino, name)]]) == [Dirent([name], ino, 1)]
  {
    var r := Filling(ino, name);
    assert Live([r]) == [AsDirent(r)] + Live([]) == [AsDirent(r)];
    assert AllLive([[r]]) == Live([r]) + AllLive([]) == Live([r]);
  }

  /** A volume on which `/f/x` resolves although `/f` is a regular file. */
  lemma FileReadAsDirectory() returns (v: Volume, tree: Tree, names: seq<seq<Byte>>)
    ensures IsVolume(v) && Holds(v, tree) && Typed(tree) && ROOT in tree
    ensures names == [[F], [X]] && LookupTree(tree, ROOT, [F]) == Got(Dirent([F], 3, 1))
    ensures WalkTree(tree, ROOT, DIRECTORY, names) == Absent
    ensures ResolvePlain(v, names) == Got((4, 1))
  {
    hide Misleading, ReadInode, Filling, ResolvePlain, IsDirectory, LookupIn, AllLive, FirstNamed;
    v, names := Misleading(), [[F], [X]];
    MisleadingDirectory(2, F);
    MisleadingDirectory(3, X);
    FillingNamed(3, F);
    FillingNamed(4, X);
    tree := map[2 := [[Filling(3, F)]]];
    var both := tree[3 := [[Filling(4, X)]]];
    LookupIsFirstNamed(v, both, 3, [X]);
    assert WalkTree(tree, 3, 1, [[X]]) == Absent;
    assert names[1..] == [[X]] && names[1..][1..] == [];
    assert Reach(tree, 3, 1, [[X]]) == (3, 1, [[X]]);
    assert Reach(tree, ROOT, DIRECTORY, names) == (3, 1, [[X]]);
    assert ResolveFrom(v, 3, 1, [[X]]) == Got((4, 1));
    ResolvesPath(v, tree, names);
  }

  // ── The loops ──────────────────────────────────────────────────────────────

  function Before(seen: seq<Dirent>, scan: Scan): Scan {
    Scan(seen + scan.seen, scan.at, scan.halt)
  }

  lemma BeforeBefore(a: seq<Dirent>, b: seq<Dirent>, scan: Scan)
    ensures Before(a, Before(b, scan)) == Before(a + b, scan) && Before([], scan) == scan
  {
  }

  predicate EndsAt(data: seq<Byte>, at: nat) {
    at + 8 > |data| || Le16(data, at + 4) < 8 || at + Le16(data, at + 4) > |data|
  }

  lemma ScanEnds(data: seq<Byte>, at: nat, seen: seq<Dirent>, target: Target)
    requires EndsAt(data, at)
    ensures Before(seen, ScanBlock(data, at, target)) == Scan(seen, at, RanOut)
  {
    hide Le16, Le32;
    assert seen + [] == seen;
  }

  lemma ScanNext(data: seq<Byte>, at: nat, target: Target)
    requires !EndsAt(data, at)
    ensures var more := ScanBlock(data, at + Le16(data, at + 4), target);
            var end := at + 8 + data[at + 6];
            ScanBlock(data, at, target) ==
              if Le32(data, at) == 0 then more
              else if end > |data| then Scan([], at, Crashed)
              else
                var e := Dirent(data[at + 8..end], Le32(data, at), data[at + 7]);
                Before([e], if target == Some(e.name) then Scan([], at, Stopped) else more)
  {
    hide Le16, Le32;
  }

  method WalkBlock(data: seq<Byte>, target: Target) returns (r: Scan)
    ensures r == ScanBlock(data, 0, target)
  {
    hide Le32, ScanBlock, Before;
    var at := 0;
    var seen: seq<Dirent> := [];
    BeforeBefore([], [], ScanBlock(data, 0, target));
    while !EndsAt(data, at)
      invariant Before(seen, ScanBlock(data, at, target)) == ScanBlock(data, 0, target)
      decreases |data| - at
    {
      hide Le16;
      ScanNext(data, at, target);
      var rec, ino := Le16(data, at + 4), Le32(data, at);
      if ino != 0 {
        var end := at + 8 + data[at + 6];
        if end > |data| {
          HaltsWith(seen, at, Crashed);
          return Scan(seen, at, Crashed);
        }
        var e := Dirent(data[at + 8..end], ino, data[at + 7]);
        BeforeBefore(seen, [e], ScanBlock(data, at + rec, target));
        BeforeBefore(seen, [e], Scan([], at, Stopped));
        seen := seen + [e];
        if target == Some(e.name) {
          HaltsWith(seen, at, Stopped);
          return Scan(seen, at, Stopped);
        }
      }
      at := at + rec;
    }
    ScanEnds(data, at, seen, target);
    return Scan(seen, at, RanOut);
  }

  lemma HaltsWith(seen: seq<Dirent>, at: nat, halt: Halt)
    ensures Before(seen, Scan([], at, halt)) == Scan(seen, at, halt)
  {
  }

  function Ahead(seen: seq<Dirent>, rest: (seq<Dirent>, Halt)): (seq<Dirent>, Halt) {
    (seen + rest.0, rest.1)
  }

  lemma AheadAhead(a: seq<Dirent>, b: seq<Dirent>, rest: (seq<Dirent>, Halt))
    ensures Ahead(a, Ahead(b, rest)) == Ahead(a + b, rest) && Ahead([], rest) == rest
    ensures Ahead(a, ([], rest.1)) == (a, rest.1)
  {
    assert a + (b + rest.0) == a + b + rest.0;
    assert [] + rest.0 == rest.0 && a + [] == a;
  }

  function NextOffset(v: Volume, logical: nat, fileOff: nat, at: nat): nat {
    if at >= v.blockSize then (logical + 1) * v.blockSize else fileOff + at
  }

  lemma DirNext(v: Volume, inode: Inode, logical: nat, fileOff: nat, target: Target)
    requires IsVolume(v) && IsInode(inode) && fileOff < inode.size
    ensures ScanDir(v, inode, logical, fileOff, target) ==
            var blk := FileBlock(v, inode, logical);
            if !blk.Got? then ([], if blk.Panicked? then Crashed else RanOut)
            else
              var data := ReadBlock(v, blk.value);
              if data.None? then ([], RanOut)
              else
                var scan := ScanBlock(data.value, 0, target);
                if scan.halt != RanOut then (scan.seen, scan.halt)
                else Ahead(scan.seen, ScanDir(v, inode, logical + 1, NextOffset(v, logical, fileOff, scan.at), target))
  {
    hide FileBlock, ReadBlock, ScanBlock;
  }

  method ReadDir(v: Volume, inode: Inode, target: Target) returns (seen: seq<Dirent>, halt: Halt)
    requires IsVolume(v) && IsInode(inode)
    ensures (seen, halt) == ScanDir(v, inode, 0, 0, target)
  {
    hide FileBlock, ReadBlock, ScanBlock, ScanDir, Ahead;
    seen, halt := [], RanOut;
    var fileOff: nat, logical: nat := 0, 0;
    AheadAhead([], [], ScanDir(v, inode, 0, 0, target));
    while fileOff < inode.size
      invariant Ahead(seen, ScanDir(v, inode, logical, fileOff, target)) == ScanDir(v, inode, 0, 0, target)
      invariant halt == RanOut
      decreases if logical <= Limit(v) then Limit(v) + 1 - logical else 0
    {
      DirNext(v, inode, logical, fileOff, target);
      var blk := FileBlock(v, inode, logical);
      if !blk.Got? {
        halt := if blk.Panicked? then Crashed else RanOut;
        AheadAhead(seen, [], ([], halt));
        return;
      }
      var data := ReadBlock(v, blk.value);
      if data.None? {
        AheadAhead(seen, [], ([], halt));
        return;
      }
      PastLimit(v, inode, logical);
      var scan := WalkBlock(data.value, target);
      AheadAhead(seen, scan.seen, ScanDir(v, inode, logical + 1, NextOffset(v, logical, fileOff, scan.at), target));
      AheadIs(seen, scan.seen, scan.halt);
      seen := seen + scan.seen;
      if scan.halt != RanOut {
        halt := scan.halt;
        return;
      }
      fileOff := NextOffset(v, logical, fileOff, scan.at);
      logical := logical + 1;
    }
    DirEnd(v, inode, logical, fileOff, target);
    AheadAhead(seen, [], ([], RanOut));
  }

  lemma AheadIs(a: seq<Dirent>, b: seq<Dirent>, halt: Halt)
    ensures Ahead(a, (b, halt)) == (a + b, halt)
  {
  }

  lemma DirEnd(v: Volume, inode: Inode, logical: nat, fileOff: nat, target: Target)
    requires IsVolume(v) && IsInode(inode) && fileOff >= inode.size
    ensures ScanDir(v, inode, logical, fileOff, target) == ([], RanOut)
  {
  }

  method Lookup(v: Volume, dir: nat, name: seq<Byte>) returns (r: Read<Dirent>)
    requires IsVolume(v)
    ensures r == LookupIn(v, dir, name)
  {
    hide ScanDir;
    var inode := ReadInode(v, dir);
    if inode.None? {
      return Absent;
    }
    var seen, halt := ReadDir(v, inode.value, Some(name));
    match halt
    case Crashed => return Panicked;
    case RanOut => return Absent;
    case Stopped => return if seen == [] then Absent else Got(seen[|seen| - 1]);
  }

  method ResolvePath(v: Volume, path: seq<Byte>) returns (r: Read<(nat, Byte)>)
    requires IsVolume(v)
    ensures r == Resolve(v, path)
  {
    hide LookupIn;
    var pieces := Split(Unslashed(path));
    var ino, fileType, i := ROOT, DIRECTORY, 0;
    assert pieces[0..] == pieces;
    while i < |pieces|
      invariant 0 <= i <= |pieces|
      invariant ResolveFrom(v, ino, fileType, pieces[i..]) == ResolveFrom(v, ROOT, DIRECTORY, pieces)
    {
      assert pieces[i..][1..] == pieces[i + 1..];
      if pieces[i] != [] {
        var e := Lookup(v, ino, pieces[i]);
        if !e.Got? {
          return if e.Absent? then Absent else Panicked;
        }
        ino, fileType := e.value.ino, e.value.fileType;
      }
      i := i + 1;
    }
    return Got((ino, fileType));
  }
}
