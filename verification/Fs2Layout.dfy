/** On-disk structures of the CWFS2 file system (kernel/fs2.h:50-142) and the
    arithmetic of its region tables.

    A region table is a pair of arrays: the first block of each region and the
    number of blocks in it.  A first block of 0 ends the table.  Everything the
    file system does with a table goes through the flat list of block addresses
    that the table stands for, `Flat`. */
module Fs2Layout {
  import opened Common

  // Sizes fixed by fs2.h: 4096 bytes, 32 inodes or 128 directory entries fill a
  // block; an inode has 23 regions and the header 800; names have 28 characters.
  // They stand as literals, so that divisions by them stay linear.

  /** (uint32_t) -1: the cache address that stands for "nothing cached". */
  const NO_BLOCK: nat := 0xFFFF_FFFF

  type Byte = b: int | 0 <= b < 256

  datatype Outcome =
    | Success | InvalidFs | BadFormatArgs | DiskRdErr | DiskWrErr
    | HBlockFull | DiskFull | FileFull
    | UnexpectedFile | InvalidPath | NoFile | BadFType | BadPermissions

  datatype FType = Dir | File

  datatype INode = INode(ftype: FType, fperm: nat, eof: nat, iparent: nat,
                         regStart: seq<nat>, regLen: seq<nat>)

  datatype DirEntry = DirEntry(inodeIndex: nat, name: string)

  datatype HBlock = HBlock(ident: string, defaultPerm: nat,
                           iregLen: nat, fregLen: nat, dregLen: nat,
                           nblocks: nat, nextInode: nat, nextBlock: nat,
                           separator: nat, regStart: seq<nat>, regLen: seq<nat>)

  /** A disk block, by the structure that was last stored in it. */
  datatype Block =
    | HeaderBlock(header: HBlock)
    | InodeBlock(inodes: seq<INode>)
    | DirBlock(entries: seq<DirEntry>)
    | DataBlock(bytes: seq<Byte>)

  predicate TableShape(nd: INode) { |nd.regStart| == 23 && |nd.regLen| == 23 }

  /** Names are arrays of 28 characters, ended early by a NUL. */
  predicate NamesOk(es: seq<DirEntry>) { forall k :: 0 <= k < |es| ==> |es[k].name| == 28 }

  // ---------------------------------------------------------- bytes of a block

  function Blank(n: nat): (r: seq<Byte>)
    ensures |r| == n
  {
    seq(n, _ => 0)
  }

  /** A number in one byte, and in four, least significant byte first. */
  function Octet(n: nat): Byte { n % 256 }

  function Word(n: nat): (r: seq<Byte>)
    ensures |r| == 4
  {
    [Octet(n), Octet(n / 0x100), Octet(n / 0x1_0000), Octet(n / 0x100_0000)]
  }

  function Octets(s: seq<nat>): (r: seq<Byte>)
    ensures |r| == |s|
  {
    seq(|s|, j requires 0 <= j < |s| => Octet(s[j]))
  }

  function Words(s: seq<nat>): (r: seq<Byte>)
    ensures |r| == 4 * |s|
  {
    seq(4 * |s|, j requires 0 <= j < 4 * |s| => Word(s[j / 4])[j % 4])
  }

  function Codes(s: string): (r: seq<Byte>)
    ensures |r| == |s|
  {
    seq(|s|, j requires 0 <= j < |s| => Octet(s[j] as int))
  }

  function RawEntry(e: DirEntry): (r: seq<Byte>)
    requires |e.name| == 28
    ensures |r| == 32
  {
    Word(e.inodeIndex) + Codes(e.name)
  }

  function RawNode(nd: INode): (r: seq<Byte>)
    requires TableShape(nd)
    ensures |r| == 128
  {
    [if nd.ftype.Dir? then 0 else 1, Octet(nd.fperm)] + Blank(3) + Octets(nd.regLen)
    + Word(nd.eof) + Word(nd.iparent) + Words(nd.regStart)
  }

  predicate HeaderShape(h: HBlock) { |h.ident| == 8 && |h.regStart| == |h.regLen| == 800 }

  /** What stands before the region table of a header, 70 unused bytes included. */
  function RawFront(h: HBlock): (r: seq<Byte>)
    requires HeaderShape(h)
    ensures |r| == 96
  {
    Codes(h.ident) + [Octet(h.defaultPerm), Octet(h.iregLen), Octet(h.fregLen), Octet(h.dregLen)]
    + Word(h.nblocks) + Word(h.nextInode) + Word(h.nextBlock)
    + Blank(70) + [Octet(h.separator), Octet(h.separator / 0x100)]
  }

  /** The 4096 bytes of a block. */
  function BytesOf(b: Block): (r: seq<Byte>)
    ensures |r| == 4096
  {
    match b
    case DataBlock(bytes) => if |bytes| == 4096 then bytes else Blank(4096)
    case DirBlock(es) =>
      if |es| == 128 && NamesOk(es) then seq(4096, p requires 0 <= p < 4096 => RawEntry(es[p / 32])[p % 32])
      else Blank(4096)
    case InodeBlock(nodes) =>
      if |nodes| == 32 && forall i :: 0 <= i < 32 ==> TableShape(nodes[i])
      then seq(4096, p requires 0 <= p < 4096 => RawNode(nodes[p / 128])[p % 128])
      else Blank(4096)
    case HeaderBlock(h) =>
      if HeaderShape(h) then RawFront(h) + Words(h.regStart) + Octets(h.regLen) else Blank(4096)
  }

  // The casts of fs2.c between a raw block and a structure: the structure last
  // stored in the block, or what its bytes come to under that type.

  function Number(b: seq<Byte>, i: nat): nat
    requires i + 4 <= |b|
  {
    b[i] as int + 0x100 * (b[i + 1] as int) + 0x1_0000 * (b[i + 2] as int) + 0x100_0000 * (b[i + 3] as int)
  }

  function Numbers(b: seq<Byte>, i: nat, n: nat): (r: seq<nat>)
    requires i + 4 * n <= |b|
    ensures |r| == n
  {
    seq(n, j requires 0 <= j < n => Number(b, i + 4 * j))
  }

  function Chars(b: seq<Byte>): (r: string)
    ensures |r| == |b|
  {
    seq(|b|, j requires 0 <= j < |b| => b[j] as char)
  }

  function EntryIn(b: seq<Byte>, k: nat): (e: DirEntry)
    requires 32 * k + 32 <= |b|
    ensures |e.name| == 28
  {
    DirEntry(Number(b, 32 * k), Chars(b[32 * k + 4..32 * k + 32]))
  }

  function NodeIn(b: seq<Byte>, k: nat): (nd: INode)
    requires 128 * k + 128 <= |b|
    ensures TableShape(nd)
  {
    var i := 128 * k;
    INode(if b[i] == 0 then Dir else File, b[i + 1], Number(b, i + 28), Number(b, i + 32), Numbers(b, i + 36, 23),
          seq(23, j requires 0 <= j < 23 => b[i + 5 + j]))
  }

  function HeaderIn(b: seq<Byte>): HBlock
    requires |b| == 4096
  {
    HBlock(Chars(b[..8]), b[8], b[9], b[10], b[11], Number(b, 12), Number(b, 16), Number(b, 20),
           b[94] as int + 0x100 * (b[95] as int), Numbers(b, 96, 800), b[3296..])
  }

  function HeaderOf(b: Block): HBlock { if b.HeaderBlock? then b.header else HeaderIn(BytesOf(b)) }

  function InodesOf(b: Block): (r: seq<INode>)
    ensures |r| == 32
    ensures forall i :: 0 <= i < 32 ==> TableShape(r[i])
  {
    if b.InodeBlock? && |b.inodes| == 32 && forall i :: 0 <= i < 32 ==> TableShape(b.inodes[i])
    then b.inodes else seq(32, i requires 0 <= i < 32 => NodeIn(BytesOf(b), i))
  }

  function EntriesOf(b: Block): (r: seq<DirEntry>)
    ensures |r| == 128 && NamesOk(r)
  {
    if b.DirBlock? && |b.entries| == 128 && NamesOk(b.entries) then b.entries
    else seq(128, k requires 0 <= k < 128 => EntryIn(BytesOf(b), k))
  }

  /** A block of entries shows those entries. */
  lemma EntriesKept(es: seq<DirEntry>)
    requires |es| == 128 && NamesOk(es)
    ensures EntriesOf(DirBlock(es)) == es
  {
  }

  // ---------------------------------------------------------------- tables

  /** The blocks start, start + 1, ... of one region. */
  function Run(start: nat, len: nat): (r: seq<nat>)
    ensures |r| == len
    ensures forall j :: 0 <= j < len ==> r[j] == start + j
  {
    seq(len, j => start + j)
  }

  /** Block addresses of the regions from slot i up to the end of the table. */
  function FlatFrom(start: seq<nat>, len: seq<nat>, i: nat): seq<nat>
    requires |start| == |len| && i <= |start|
    decreases |start| - i
  {
    if i == |start| || start[i] == 0 then [] else Run(start[i], len[i]) + FlatFrom(start, len, i + 1)
  }

  function Flat(start: seq<nat>, len: seq<nat>): seq<nat>
    requires |start| == |len|
  {
    FlatFrom(start, len, 0)
  }

  /** Entry k of an address list, or 0, which is no block's address. */
  function At(s: seq<nat>, k: nat): nat { if k < |s| then s[k] else 0 }

  function NodeBlocks(nd: INode): seq<nat> {
    if TableShape(nd) then Flat(nd.regStart, nd.regLen) else []
  }

  /** Once a slot is unused every later one is. */
  predicate ZeroTail(start: seq<nat>) {
    forall j, k :: 0 <= j < k < |start| && start[j] == 0 ==> start[k] == 0
  }

  /** Every slot in use stands for at least one block. */
  predicate Solid(start: seq<nat>, len: seq<nat>)
    requires |start| == |len|
  {
    forall j :: 0 <= j < |start| && start[j] != 0 ==> 1 <= len[j]
  }

  /** i is the number of slots in use. */
  predicate FirstFree(start: seq<nat>, i: nat) {
    i <= |start| && (forall j :: 0 <= j < i ==> start[j] != 0) && (i < |start| ==> start[i] == 0)
  }

  /** Address computation of every file system operation: the bindex-th block
      of the table, or 0. */
  method FindBlk(regStart: seq<nat>, regLen: seq<nat>, nreg: nat, bindex: nat) returns (blk: nat)
    requires |regStart| == |regLen| == nreg
    ensures blk == At(Flat(regStart, regLen), bindex)
  {
    var n, j, i := 0, 0, 0;
    while i < nreg && regStart[i] != 0
      invariant 0 <= i <= nreg && n <= bindex
      invariant At(Flat(regStart, regLen), bindex) == At(FlatFrom(regStart, regLen, i), bindex - n)
    {
      j := n + regLen[i];
      if bindex < j {
        return regStart[i] + bindex - n;
      }
      n := j;
      i := i + 1;
    }
    return 0;
  }

  lemma {:induction false} FlatEmptyFrom(start: seq<nat>, len: seq<nat>, i: nat)
    requires |start| == |len| && i <= |start|
    requires i < |start| ==> start[i] == 0
    ensures FlatFrom(start, len, i) == []
  {
  }

  /** Filling the first free slot appends the new region to the address list and
      leaves the old addresses where they were. */
  lemma {:induction false} FlatAppend(start: seq<nat>, len: seq<nat>, i: nat, k: nat, a: nat, n: nat)
    requires |start| == |len| && i < |start| && k <= i && a != 0
    requires FirstFree(start, i) && ZeroTail(start)
    ensures FlatFrom(start[i := a], len[i := n], k) == FlatFrom(start, len, k) + Run(a, n)
    decreases i - k
  {
    var start', len' := start[i := a], len[i := n];
    if k == i {
      assert i + 1 < |start| ==> start[i] == 0 && start[i + 1] == 0;
      FlatEmptyFrom(start', len', i + 1);
      assert FlatFrom(start', len', i) == Run(a, n) + [];
    } else {
      FlatAppend(start, len, i, k + 1, a, n);
      assert FlatFrom(start', len', k) == Run(start[k], len[k]) + FlatFrom(start', len', k + 1);
    }
  }

  lemma ZeroTailAppend(start: seq<nat>, i: nat, a: nat)
    requires i < |start| && a != 0
    requires FirstFree(start, i) && ZeroTail(start)
    ensures ZeroTail(start[i := a])
  {
  }

  // ------------------------------------------------- incremental (i, j) walk

  /** The block entry k lies in, when b blocks have been begun. */
  lemma BlockIndex(k: nat, b: nat)
    requires 128 * b - 128 < k <= 128 * b
    ensures k % 128 == 0 <==> k == 128 * b
    ensures k / 128 == if k == 128 * b then b else b - 1
  {
  }

  /** Number of blocks in the first i regions. */
  function Before(len: seq<nat>, i: nat): nat
    requires i <= |len|
  {
    if i == 0 then 0 else Before(len, i - 1) + len[i - 1]
  }

  /** Block j of region i is where a walk that has passed b blocks stands. */
  ghost predicate WalkAt(start: seq<nat>, len: seq<nat>, b: nat, i: nat, j: nat) {
    && |start| == |len| && i <= |start|
    && b == Before(len, i) + j
    && (forall m :: 0 <= m < i ==> start[m] != 0)
    && (j != 0 ==> i < |start| && start[i] != 0 && j < len[i])
  }

  /** The regions from slot i on are what is left of the flat list. */
  lemma {:induction false} FlatSplit(start: seq<nat>, len: seq<nat>, i: nat)
    requires |start| == |len| && i <= |start|
    requires forall m :: 0 <= m < i ==> start[m] != 0
    ensures Before(len, i) <= |Flat(start, len)|
    ensures Flat(start, len)[Before(len, i)..] == FlatFrom(start, len, i)
  {
    if i > 0 {
      FlatSplit(start, len, i - 1);
      var all := Flat(start, len);
      assert all[Before(len, i)..] == all[Before(len, i - 1)..][len[i - 1]..];
      assert all[Before(len, i - 1)..] == Run(start[i - 1], len[i - 1]) + FlatFrom(start, len, i);
    }
  }

  /** Walking region by region visits exactly the blocks that the direct address
      computation gives, and runs off the table exactly at the last of them. */
  lemma WalkStep(start: seq<nat>, len: seq<nat>, b: nat, i: nat, j: nat)
    requires WalkAt(start, len, b, i, j)
    requires Solid(start, len) && b < |Flat(start, len)|
    ensures i < |start| && start[i] != 0 && j < len[i] && start[i] + j == Flat(start, len)[b]
    ensures j + 1 < len[i] ==> WalkAt(start, len, b + 1, i, j + 1) && b + 1 < |Flat(start, len)|
    ensures j + 1 == len[i] ==> WalkAt(start, len, b + 1, i + 1, 0)
    ensures j + 1 == len[i] ==>
              ((i + 1 == |start| || start[i + 1] == 0) <==> b + 1 == |Flat(start, len)|)
  {
    FlatSplit(start, len, i);
    var n := Before(len, i);
    assert Flat(start, len)[n..][j] == Flat(start, len)[b];
    if j + 1 == len[i] {
      FlatSplit(start, len, i + 1);
      assert |FlatFrom(start, len, i + 1)| == |Flat(start, len)| - (b + 1);
      if i + 1 < |start| && start[i + 1] != 0 { assert |FlatFrom(start, len, i + 1)| >= len[i + 1]; }
    }
  }
}
