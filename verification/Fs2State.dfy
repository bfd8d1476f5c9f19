/** What the blocks of a CWFS2 volume mean: which structure owns each block,
    which inode table the header describes, and the tree of directories and
    files that table stands for. */
module Fs2State {
  import opened Fs2Layout

  /** The use a block was allocated for.  Blocks are never reclaimed, so the
      tags of the allocated blocks [0, nextBlock) only ever grow. */
  datatype Tag =
    | HeaderTag
    | InodeTag(j: nat)          // j-th block of inodes
    | DirTag(i: nat, j: nat)    // j-th block of directory i
    | FileTag(i: nat, j: nat)   // j-th block of file i

  function TagOf(ft: FType, i: nat, j: nat): Tag { if ft.Dir? then DirTag(i, j) else FileTag(i, j) }

  /** What a caller of the file system sees of an inode.  `blocks` is the number
      of blocks of the directory; lookups do not search the last one. */
  datatype Node =
    | DirNode(entries: seq<DirEntry>, blocks: nat)
    | FileNode(bytes: seq<Byte>)

  function BlockAt(disk: seq<Block>, a: nat): Block { if a < |disk| then disk[a] else DataBlock([]) }

  function ITab(h: HBlock): seq<nat> {
    if |h.regStart| == |h.regLen| then Flat(h.regStart, h.regLen) else []
  }

  function NodeOnDisk(h: HBlock, disk: seq<Block>, i: nat): INode {
    InodesOf(BlockAt(disk, At(ITab(h), i / 32)))[i % 32]
  }

  function ByteAt(disk: seq<Block>, blocks: seq<nat>, p: nat): Byte {
    BytesOf(BlockAt(disk, At(blocks, p / 4096)))[p % 4096]
  }

  function EntryAt(disk: seq<Block>, blocks: seq<nat>, k: nat): DirEntry {
    EntriesOf(BlockAt(disk, At(blocks, k / 128)))[k % 128]
  }

  function FileBytes(disk: seq<Block>, blocks: seq<nat>, eof: nat): (r: seq<Byte>)
    ensures |r| == eof
    ensures forall p :: 0 <= p < eof ==> r[p] == ByteAt(disk, blocks, p)
  {
    seq(eof, p requires 0 <= p => ByteAt(disk, blocks, p))
  }

  function DirEntries(disk: seq<Block>, blocks: seq<nat>, eof: nat): (r: seq<DirEntry>)
    ensures |r| == eof
    ensures forall k :: 0 <= k < eof ==> r[k] == EntryAt(disk, blocks, k)
  {
    seq(eof, k requires 0 <= k => EntryAt(disk, blocks, k))
  }

  /** How many entries or bytes of an inode its blocks have room for. */
  function Capacity(nd: INode): nat { (if nd.ftype.Dir? then 128 else 4096) * |NodeBlocks(nd)| }

  /** How many of them a caller sees. */
  function Shown(nd: INode): (n: nat)
    ensures n <= nd.eof && n <= Capacity(nd)
  {
    if nd.eof <= Capacity(nd) then nd.eof else Capacity(nd)
  }

  function NodeView(disk: seq<Block>, nd: INode): Node {
    var blocks := NodeBlocks(nd);
    if nd.ftype.Dir?
    then DirNode(DirEntries(disk, blocks, Shown(nd)), |blocks|)
    else FileNode(FileBytes(disk, blocks, Shown(nd)))
  }

  function View(disk: seq<Block>, ino: seq<INode>): (r: seq<Node>)
    ensures |r| == |ino|
    ensures forall i :: 0 <= i < |ino| ==> r[i] == NodeView(disk, ino[i])
  {
    seq(|ino|, i requires 0 <= i < |ino| => NodeView(disk, ino[i]))
  }

  // ----------------------------------------------------------------- lookup

  datatype Found = Found(child: nat) | Missing(why: Outcome)

  /** strncmp(stored, name, n) == 0 for a name of n characters. */
  predicate NameMatches(stored: string, name: string) { name <= stored }

  /** Index of the first entry at or after k whose name matches. */
  function FirstMatch(es: seq<DirEntry>, name: string, k: nat): (r: nat)
    requires k <= |es|
    ensures k <= r <= |es|
    ensures r < |es| ==> NameMatches(es[r].name, name)
    ensures forall m :: k <= m < r ==> !NameMatches(es[m].name, name)
    decreases |es| - k
  {
    if k == |es| || NameMatches(es[k].name, name) then k else FirstMatch(es, name, k + 1)
  }

  /** The entries a lookup gets to: the search gives up on loading the last block. */
  function Searched(entries: seq<DirEntry>, blocks: nat): nat {
    if |entries| <= 128 * (blocks - 1) then |entries| else if blocks == 0 then 0 else 128 * (blocks - 1)
  }

  function Lookup(n: Node, name: string): Found {
    match n
    case FileNode(_) => Missing(BadFType)
    case DirNode(es, blocks) =>
      var k := FirstMatch(es, name, 0);
      if k < Searched(es, blocks) then Found(es[k].inodeIndex) else Missing(NoFile)
  }

  ghost predicate NoMatch(es: seq<DirEntry>, name: string, n: nat) {
    forall m :: 0 <= m < n && m < |es| ==> !NameMatches(es[m].name, name)
  }

  /** A lookup that has passed k entries in vain, and what it comes to at entry k
      of block b: a match there, or the end of what it searches. */
  lemma LookupStops(es: seq<DirEntry>, blocks: nat, name: string, k: nat, b: nat)
    requires NoMatch(es, name, k) && k <= |es|
    ensures k < |es| && k < 128 * b && b < blocks && NameMatches(es[k].name, name) ==>
              Lookup(DirNode(es, blocks), name) == Found(es[k].inodeIndex)
    ensures k == |es| || (k == 128 * b && b + 1 >= blocks) ==> Lookup(DirNode(es, blocks), name) == Missing(NoFile)
  {
  }

  // ------------------------------------------------------------ invariants

  ghost predicate HeaderOk(h: HBlock, ndisk: nat) {
    && |h.regStart| == |h.regLen| == 800 && h.separator == 800
    && h.ident == "CWFS 2.1"
    && 1 <= h.iregLen < 256 && 1 <= h.fregLen < 256 && 1 <= h.dregLen < 256
    && 1 <= h.nextBlock <= h.nblocks <= ndisk < NO_BLOCK
    && ZeroTail(h.regStart) && Solid(h.regStart, h.regLen) && Short(h.regLen)
  }

  /** Region lengths are stored in one byte each. */
  predicate Short(len: seq<nat>) { forall j :: 0 <= j < |len| ==> len[j] < 256 }

  /** A directory's entries lie within its blocks, unless its table was wiped:
      then it had no entries but "." and "..". */
  predicate DirFits(nd: INode)
    requires TableShape(nd)
  {
    1 <= nd.regLen[0] && (nd.eof <= 128 * |NodeBlocks(nd)| || (nd.regStart[0] == 0 && nd.eof <= 2))
  }

  /** The region table of an inode; `solid` demands that no region in use is
      empty, which directories never have. */
  predicate NodeShape(nd: INode, solid: bool) {
    && TableShape(nd)
    && ZeroTail(nd.regStart)
    && (solid || nd.ftype.Dir? ==> Solid(nd.regStart, nd.regLen))
    && (nd.ftype.Dir? ==> DirFits(nd))
  }

  predicate NodeOk(nd: INode) { NodeShape(nd, false) }

  /** No region in use is empty. */
  ghost predicate AllSolid(ino: seq<INode>) {
    forall i :: 0 <= i < |ino| ==> NodeShape(ino[i], true)
  }

  /** No entry of a directory names an inode from n on. */
  predicate NamesBelow(disk: seq<Block>, nd: INode, n: nat) {
    nd.ftype.Dir? ==> forall k :: 0 <= k < Shown(nd) ==> EntryAt(disk, NodeBlocks(nd), k).inodeIndex < n
  }

  lemma NamedEntry(disk: seq<Block>, nd: INode, k: nat, n: nat)
    requires nd.ftype.Dir? && k < nd.eof && k / 128 < |NodeBlocks(nd)|
    ensures NamesBelow(disk, nd, n) ==> EntryAt(disk, NodeBlocks(nd), k).inodeIndex < n
  {
    hide NodeBlocks, EntryAt;
  }

  /** The entries of a directory lie within its blocks; the end of a file need not,
      as a write that is given a region of no blocks sets it behind them. */
  predicate Sized(nd: INode) { nd.ftype.Dir? ==> nd.eof <= Capacity(nd) }

  ghost predicate OwnsBlocks(own: seq<Tag>, i: nat, ft: FType, blocks: seq<nat>) {
    forall j :: 0 <= j < |blocks| ==> 0 < blocks[j] < |own| && own[blocks[j]] == TagOf(ft, i, j)
  }

  ghost predicate Owns(own: seq<Tag>, i: nat, nd: INode) {
    OwnsBlocks(own, i, nd.ftype, NodeBlocks(nd))
  }

  ghost predicate OwnsInodes(own: seq<Tag>, itab: seq<nat>) {
    forall j :: 0 <= j < |itab| ==> 0 < itab[j] < |own| && own[itab[j]] == InodeTag(j)
  }

  ghost predicate Owned(h: HBlock, ino: seq<INode>, own: seq<Tag>) {
    && |own| == h.nextBlock && 0 < |own| && own[0] == HeaderTag
    && OwnsInodes(own, ITab(h))
    && forall i :: 0 <= i < |ino| ==> Owns(own, i, ino[i])
  }

  ghost predicate Nodes(ino: seq<INode>) {
    forall i :: 0 <= i < |ino| ==> NodeOk(ino[i])
  }

  /** The disk alone holds the header and every inode. */
  ghost predicate Stored(h: HBlock, disk: seq<Block>, ino: seq<INode>) {
    && |ino| == h.nextInode <= 32 * |ITab(h)|
    && BlockAt(disk, 0) == HeaderBlock(h)
    && forall i :: 0 <= i < |ino| ==> NodeOnDisk(h, disk, i) == ino[i]
  }

  ghost predicate ICacheOk(h: HBlock, ino: seq<INode>, icindex: nat, icaddr: nat, icache: seq<INode>) {
    && |icache| == 32
    && (forall s :: 0 <= s < 32 ==> TableShape(icache[s]))
    && (icindex < |ITab(h)| ==>
          && icaddr == ITab(h)[icindex]
          && forall i :: 0 <= i < |ino| && i / 32 == icindex ==> icache[i % 32] == ino[i])
  }

  /** The first two entries, which are all that is read of a wiped directory, name
      the root or no inode at all: so it is in a zeroed block, and in the header,
      where they read as "CWFS" and as unused bytes. */
  predicate NamesNone(es: seq<DirEntry>) {
    forall k :: 0 <= k < |es| && k < 2 ==> es[k].inodeIndex == 0 || es[k].inodeIndex >= 0x5346_5743
  }

  /** The entries of a header block are what its bytes come to. */
  lemma RawIndex(b: Block, k: nat)
    requires !b.DirBlock? && k < 128
    ensures EntriesOf(b)[k].inodeIndex == Number(BytesOf(b), 32 * k)
  {
    hide BytesOf, Number;
  }

  lemma FrontByte(h: HBlock, p: nat)
    requires HeaderShape(h) && p < 96
    ensures BytesOf(HeaderBlock(h))[p] == RawFront(h)[p]
  {
    hide RawFront, Words, Octets;
  }

  lemma HeaderNames(h: HBlock)
    requires HeaderShape(h) && h.ident == "CWFS 2.1"
    ensures NamesNone(EntriesOf(HeaderBlock(h)))
  {
    hide BytesOf, EntriesOf;
    RawIndex(HeaderBlock(h), 0);
    RawIndex(HeaderBlock(h), 1);
    FrontWord(h, 0);
    FrontWord(h, 32);
    FrontStarts(h);
  }

  /** "CWFS", and unused bytes. */
  lemma FrontStarts(h: HBlock)
    requires HeaderShape(h) && h.ident == "CWFS 2.1"
    ensures Number(RawFront(h), 0) == 0x5346_5743 && Number(RawFront(h), 32) == 0
  {
    hide Word;
    var b := RawFront(h);
    assert b[0] == 67 && b[1] == 87 && b[2] == 70 && b[3] == 83;
    assert b[32] == b[33] == b[34] == b[35] == 0;
  }

  lemma FrontWord(h: HBlock, i: nat)
    requires HeaderShape(h) && i + 4 <= 96
    ensures Number(BytesOf(HeaderBlock(h)), i) == Number(RawFront(h), i)
  {
    hide BytesOf, RawFront;
    FrontByte(h, i);
    FrontByte(h, i + 1);
    FrontByte(h, i + 2);
    FrontByte(h, i + 3);
  }

  /** Where a header keeps the lengths of its regions. */
  lemma LengthBytes(h: HBlock, j: nat)
    requires HeaderShape(h) && j < 800
    ensures BytesOf(HeaderBlock(h))[3296 + j] == Octet(h.regLen[j])
  {
    hide RawFront, Octet;
    var front := RawFront(h) + Words(h.regStart);
    assert |front| == 3296;
    assert BytesOf(HeaderBlock(h)) == front + Octets(h.regLen);
  }

  /** The header of a volume with four regions of inode blocks, taken for directory
      entries, lists an inode beyond any table. */
  lemma HeaderLists(h: HBlock, ndisk: nat)
    requires HeaderOk(h, ndisk) && h.regStart[3] != 0
    ensures 32 * |ITab(h)| < 0x0101_0101 <= EntriesOf(HeaderBlock(h))[103].inodeIndex
  {
    hide BytesOf, ITab, EntriesOf;
    FewInodes(h, ndisk);
    RawIndex(HeaderBlock(h), 103);
    LengthBytes(h, 0);
    LengthBytes(h, 1);
    LengthBytes(h, 2);
    LengthBytes(h, 3);
    assert h.regStart[0] != 0 && h.regStart[1] != 0 && h.regStart[2] != 0;
  }

  /** There are fewer inodes than the number that "CWFS" stands for. */
  lemma FewInodes(h: HBlock, ndisk: nat)
    requires HeaderOk(h, ndisk)
    ensures 32 * |ITab(h)| < 0x0101_0101
  {
    FewBlocks(h.regStart, h.regLen, 0);
  }

  lemma {:induction false} FewBlocks(start: seq<nat>, len: seq<nat>, i: nat)
    requires |start| == |len| && i <= |start| && Short(len)
    ensures |FlatFrom(start, len, i)| <= 255 * (|start| - i)
    decreases |start| - i
  {
    if i < |start| { FewBlocks(start, len, i + 1); }
  }

  ghost predicate DCacheOk(disk: seq<Block>, own: seq<Tag>, dcaddr: nat, dcache: seq<DirEntry>) {
    && |dcache| == 128 && NamesOk(dcache)
    && (dcaddr == 0 ==> NamesNone(dcache))
    && (dcaddr != NO_BLOCK ==> dcaddr < |own| && (own[dcaddr].DirTag? ==> EntriesOf(BlockAt(disk, dcaddr)) == dcache))
  }

  /** The general purpose cache agrees with the disk, except that it may be
      stale on a directory block: those are written through the other cache. */
  ghost predicate XCacheOk(disk: seq<Block>, own: seq<Tag>, xcaddr: nat, xcache: Block) {
    xcaddr < |disk| && (xcaddr >= |own| || own[xcaddr].FileTag?) ==> disk[xcaddr] == xcache
  }

  /** Entry k of directory d names inode c, and no other entry does. */
  ghost predicate ChildLink(ino: seq<INode>, live: set<nat>, pos: seq<nat>, d: nat, k: nat, c: nat)
    requires |pos| == |ino|
  {
    c in live && 0 < c < |ino| && ino[c].iparent == d && pos[c] == k
  }

  ghost predicate DirLinks(ino: seq<INode>, entries: seq<DirEntry>, live: set<nat>, pos: seq<nat>, d: nat)
    requires |pos| == |ino| && d < |ino|
  {
    && 2 <= |entries|
    && entries[0].inodeIndex == d && entries[1].inodeIndex == ino[d].iparent
    && (forall k :: 2 <= k < |entries| ==> ChildLink(ino, live, pos, d, k, entries[k].inodeIndex))
  }

  ghost predicate ParentLink(ino: seq<INode>, view: seq<Node>, live: set<nat>, pos: seq<nat>, c: nat)
    requires |pos| == |ino| == |view| && c < |ino|
  {
    var p := ino[c].iparent;
    && p in live && p < |ino| && view[p].DirNode?
    && (c != 0 ==> 2 <= pos[c] < |view[p].entries| && view[p].entries[pos[c]].inodeIndex == c)
  }

  ghost predicate Linked(ino: seq<INode>, view: seq<Node>, live: set<nat>, pos: seq<nat>, c: nat)
    requires |pos| == |ino| == |view|
  {
    && c < |ino| && Sized(ino[c])
    && ParentLink(ino, view, live, pos, c)
    && (view[c].DirNode? ==> DirLinks(ino, view[c].entries, live, pos, c))
  }

  /** `live` are the inodes a path can reach; inode c other than the root is
      named by exactly one entry, entry pos[c] of directory iparent(c). */
  ghost predicate Tree(ino: seq<INode>, view: seq<Node>, live: set<nat>, pos: seq<nat>) {
    && |view| == |pos| == |ino|
    && 0 in live && 0 < |ino| && view[0].DirNode? && ino[0].iparent == 0
    && (forall c :: c in live ==> c < |ino|)
    && forall c {:trigger Linked(ino, view, live, pos, c)} :: c in live ==> Linked(ino, view, live, pos, c)
  }

  /** What the disk and the header in memory hold between operations. */
  ghost predicate Consistent(h: HBlock, disk: seq<Block>, ino: seq<INode>, own: seq<Tag>,
                             live: set<nat>, pos: seq<nat>)
  {
    && HeaderOk(h, |disk|) && Owned(h, ino, own) && Nodes(ino)
    && Stored(h, disk, ino) && Tree(ino, View(disk, ino), live, pos)
  }

  // ------------------------------------------------------------- ownership

  /** Distinct places in the volume's tables are distinct blocks. */
  lemma OwnersDisjoint(own: seq<Tag>, ino: seq<INode>, h: HBlock, i: nat, i': nat, j: nat, j': nat)
    requires Owned(h, ino, own) && i < |ino| && i' < |ino|
    requires j < |NodeBlocks(ino[i])| && j' < |NodeBlocks(ino[i'])|
    ensures 1 <= NodeBlocks(ino[i])[j] < h.nextBlock
    ensures NodeBlocks(ino[i])[j] == NodeBlocks(ino[i'])[j'] ==> i == i' && j == j'
    ensures NodeBlocks(ino[i])[j] !in ITab(h)
    ensures forall a :: 0 <= a < |ITab(h)| ==> 1 <= ITab(h)[a] < h.nextBlock
    ensures forall a, b :: 0 <= a < b < |ITab(h)| ==> ITab(h)[a] != ITab(h)[b]
  {
    assert Owns(own, i, ino[i]) && Owns(own, i', ino[i']);
  }

  /** The tag of a block names the inode it belongs to. */
  predicate Belongs(t: Tag, i: nat) { (t.DirTag? && t.i == i) || (t.FileTag? && t.i == i) }

  /** An inode's view depends on the blocks it owns and on nothing else. */
  lemma NodeFrame(disk: seq<Block>, disk': seq<Block>, own: seq<Tag>, i: nat, nd: INode)
    requires Owns(own, i, nd)
    requires forall a :: 0 <= a < |own| && Belongs(own[a], i) ==> BlockAt(disk', a) == BlockAt(disk, a)
    ensures NodeView(disk', nd) == NodeView(disk, nd)
  {
    hide BytesOf, EntriesOf;
    var blocks, n := NodeBlocks(nd), Shown(nd);
    if nd.ftype.Dir? {
      forall k | 0 <= k < n ensures EntryAt(disk', blocks, k) == EntryAt(disk, blocks, k) {
        assert own[blocks[k / 128]] == DirTag(i, k / 128);
      }
      assert DirEntries(disk', blocks, n) == DirEntries(disk, blocks, n);
    } else {
      forall p | 0 <= p < n ensures ByteAt(disk', blocks, p) == ByteAt(disk, blocks, p) {
        assert own[blocks[p / 4096]] == FileTag(i, p / 4096);
      }
      assert FileBytes(disk', blocks, n) == FileBytes(disk, blocks, n);
    }
  }

  /** Writes to blocks that hold no inodes change no stored inode. */
  lemma SameInodes(h: HBlock, disk: seq<Block>, disk': seq<Block>, own: seq<Tag>, n: nat)
    requires OwnsInodes(own, ITab(h)) && |disk'| == |disk| && n <= 32 * |ITab(h)|
    requires forall a :: 0 < a < |own| && own[a].InodeTag? ==> BlockAt(disk', a) == BlockAt(disk, a)
    ensures forall i :: 0 <= i < n ==> NodeOnDisk(h, disk', i) == NodeOnDisk(h, disk, i)
  {
    forall i | 0 <= i < n ensures NodeOnDisk(h, disk', i) == NodeOnDisk(h, disk, i) {
      assert own[ITab(h)[i / 32]] == InodeTag(i / 32);
    }
  }

  /** Saving a block of inodes stores these and no others. */
  lemma SavedInodes(h: HBlock, disk: seq<Block>, own: seq<Tag>, q: nat, nodes: seq<INode>)
    requires OwnsInodes(own, ITab(h)) && q < |ITab(h)| && ITab(h)[q] < |disk|
    requires |nodes| == 32 && forall s :: 0 <= s < 32 ==> TableShape(nodes[s])
    ensures var disk' := disk[ITab(h)[q] := InodeBlock(nodes)];
            forall i :: 0 <= i < 32 * |ITab(h)| ==>
              NodeOnDisk(h, disk', i) == if i / 32 == q then nodes[i % 32] else NodeOnDisk(h, disk, i)
  {
    hide ITab;
    var disk' := disk[ITab(h)[q] := InodeBlock(nodes)];
    assert own[ITab(h)[q]] == InodeTag(q) && InodesOf(InodeBlock(nodes)) == nodes;
    forall i | 0 <= i < 32 * |ITab(h)|
      ensures NodeOnDisk(h, disk', i) == if i / 32 == q then nodes[i % 32] else NodeOnDisk(h, disk, i)
    {
      assert own[ITab(h)[i / 32]] == InodeTag(i / 32);
    }
  }

  /** Writes to blocks that belong to no directory or file leave every view alone. */
  lemma SameViews(disk: seq<Block>, disk': seq<Block>, own: seq<Tag>, ino: seq<INode>)
    requires forall i :: 0 <= i < |ino| ==> Owns(own, i, ino[i])
    requires forall a :: 0 <= a < |own| && (own[a].DirTag? || own[a].FileTag?) ==> BlockAt(disk', a) == BlockAt(disk, a)
    ensures View(disk', ino) == View(disk, ino)
  {
    hide NodeView, Owns;
    forall i | 0 <= i < |ino| ensures NodeView(disk', ino[i]) == NodeView(disk, ino[i]) {
      NodeFrame(disk, disk', own, i, ino[i]);
    }
    assert View(disk', ino) == View(disk, ino);
  }

  /** Writes to the blocks of inode p change no view but that of p. */
  lemma OtherViews(disk: seq<Block>, disk': seq<Block>, own: seq<Tag>, ino: seq<INode>, p: nat)
    requires forall i :: 0 <= i < |ino| && i != p ==> Owns(own, i, ino[i])
    requires forall a :: 0 <= a < |own| && !Belongs(own[a], p) ==> BlockAt(disk', a) == BlockAt(disk, a)
    ensures forall i :: 0 <= i < |ino| && i != p ==> NodeView(disk', ino[i]) == NodeView(disk, ino[i])
  {
    hide NodeView, Owns;
    forall i | 0 <= i < |ino| && i != p ensures NodeView(disk', ino[i]) == NodeView(disk, ino[i]) {
      NodeFrame(disk, disk', own, i, ino[i]);
    }
  }

  /** Lookups from reachable directories only lead to reachable inodes. */
  lemma LookupLive(h: HBlock, disk: seq<Block>, ino: seq<INode>, own: seq<Tag>, live: set<nat>, pos: seq<nat>,
                   d: nat, name: string)
    requires Consistent(h, disk, ino, own, live, pos) && d in live
    ensures d < |ino|
    ensures Lookup(View(disk, ino)[d], name).Found? ==> Lookup(View(disk, ino)[d], name).child in live
  {
    hide EntriesOf, InodesOf, BytesOf;
    var view := View(disk, ino);
    assert Linked(ino, view, live, pos, d);
    if view[d].DirNode? && Lookup(view[d], name).Found? {
      var k := FirstMatch(view[d].entries, name, 0);
      assert k >= 2 ==> ChildLink(ino, live, pos, d, k, view[d].entries[k].inodeIndex);
    }
  }

  /** What is known of a reachable inode. */
  lemma LiveNode(h: HBlock, disk: seq<Block>, ino: seq<INode>, own: seq<Tag>, live: set<nat>, pos: seq<nat>, i: nat)
    requires Consistent(h, disk, ino, own, live, pos) && i in live
    ensures i < |ino| && NodeOk(ino[i]) && Sized(ino[i]) && Owns(own, i, ino[i])
    ensures 0 < |own| <= |disk| < NO_BLOCK && own[0] == HeaderTag && 0 < h.nextBlock && TableShape(ino[i])
    ensures View(disk, ino)[i] == NodeView(disk, ino[i])
    ensures ino[i].ftype.Dir? <==> NodeView(disk, ino[i]).DirNode?
  {
    hide EntriesOf, InodesOf, BytesOf;
    assert Linked(ino, View(disk, ino), live, pos, i);
  }

  lemma RootLive(h: HBlock, disk: seq<Block>, ino: seq<INode>, own: seq<Tag>, live: set<nat>, pos: seq<nat>)
    requires Consistent(h, disk, ino, own, live, pos)
    ensures 0 in live && 0 < |ino| && 0 < |ITab(h)| && |View(disk, ino)| == |ino|
    ensures forall i :: i in live ==> i < |ino|
    ensures forall i :: 0 <= i < |ino| ==> i / 32 < |ITab(h)|
  {
  }

  // ---------------------------------------------------------- file contents

  /** Within one block a file's bytes are the bytes of the disk block. */
  lemma FileSlice(disk: seq<Block>, blocks: seq<nat>, eof: nat, m: nat, off: nat, len: nat)
    requires m < |blocks| && off + len <= 4096 && 4096 * m + off + len <= eof
    ensures FileBytes(disk, blocks, eof)[4096 * m + off..4096 * m + off + len]
         == BytesOf(BlockAt(disk, blocks[m]))[off..off + len]
  {
    hide BytesOf;
    forall p | 4096 * m + off <= p < 4096 * m + off + len
      ensures ByteAt(disk, blocks, p) == BytesOf(BlockAt(disk, blocks[m]))[p - 4096 * m]
    {
      InBlock(m, p - 4096 * m);
    }
  }

  /** Block m of a file is at hand once loaded, and holds the file's bytes. */
  lemma NextBlock(disk: seq<Block>, own: seq<Tag>, i: nat, nd: INode, xcaddr: nat, xcache: Block, m: nat, off: nat,
                  len: nat)
    requires |own| <= |disk| < NO_BLOCK && XCacheOk(disk, own, xcaddr, xcache)
    requires TableShape(nd) && Owns(own, i, nd) && nd.ftype.File? && m < |NodeBlocks(nd)|
    requires off < 4096 && off + len <= 4096 && 4096 * m + off + len <= Shown(nd)
    ensures NodeBlocks(nd) == Flat(nd.regStart, nd.regLen)
    ensures var a := NodeBlocks(nd)[m];
            && 0 < a < |disk| && (a == xcaddr ==> xcache == disk[a]) && XCacheOk(disk, own, a, disk[a])
            && FileBytes(disk, NodeBlocks(nd), Shown(nd))[4096 * m + off..4096 * m + off + len]
               == BytesOf(disk[a])[off..off + len]
  {
    hide Flat, ByteAt, BytesOf;
    assert own[NodeBlocks(nd)[m]] == FileTag(i, m);
    FileSlice(disk, NodeBlocks(nd), Shown(nd), m, off, len);
  }

  /** How many of nbytes bytes a file of `len` bytes has from `cursor` on. */
  function Readable(len: nat, cursor: nat, nbytes: nat): (r: nat)
    ensures r <= nbytes && (r == 0 || cursor + r <= len) && (r == nbytes || cursor + r >= len)
  {
    if cursor >= len then 0 else if nbytes < len - cursor then nbytes else len - cursor
  }

  /** How many of `want` bytes fs2_read returns, from `cursor` on in a file of `cap`
      blocks: it stops at a missing whole block, but not at a missing last part. */
  function Delivered(want: nat, cursor: nat, cap: nat): (n: nat)
    ensures n <= want
    ensures cursor < 4096 * cap && cursor + want < 4096 * cap + 4096 ==> n == want
    ensures n < want ==> cursor + n == 4096 * cap || (n == 0 && cursor >= 4096 * cap)
    ensures 0 < n ==> cursor < 4096 * cap && cursor + n < 4096 * cap + 4096
  {
    if cursor / 4096 >= cap then 0 else if cursor + want < 4096 * cap + 4096 then want else 4096 * cap - cursor
  }

  /** The bytes `out` are those of the file from `cursor` on, as far as both go. */
  ghost predicate Agrees(out: seq<Byte>, file: seq<Byte>, cursor: nat) {
    cursor <= |file| && if cursor + |out| <= |file| then out == file[cursor..cursor + |out|] else file[cursor..] <= out
  }

  lemma SliceJoin(s: seq<Byte>, a: nat, b: nat, c: nat)
    requires a <= b <= c <= |s|
    ensures s[a..b] + s[b..c] == s[a..c]
  {
  }

  lemma InBlock(m: nat, r: nat)
    requires r < 4096
    ensures (4096 * m + r) / 4096 == m && (4096 * m + r) % 4096 == r
  {
  }

  /** What a walk over a directory starts from. */
  lemma DirView(disk: seq<Block>, nd: INode)
    requires nd.ftype.Dir? && Sized(nd)
    ensures NodeView(disk, nd) == DirNode(DirEntries(disk, NodeBlocks(nd), nd.eof), |NodeBlocks(nd)|)
  {
  }

  /** The inode block q as the disk has it. */
  lemma StoredInodes(h: HBlock, disk: seq<Block>, ino: seq<INode>, own: seq<Tag>, live: set<nat>, pos: seq<nat>, q: nat)
    requires Consistent(h, disk, ino, own, live, pos) && q < |ITab(h)|
    ensures ITab(h)[q] < |disk| && ICacheOk(h, ino, q, ITab(h)[q], InodesOf(disk[ITab(h)[q]]))
  {
    hide Tree, Nodes;
    assert own[ITab(h)[q]] == InodeTag(q);
    forall m | 0 <= m < |ino| && m / 32 == q ensures InodesOf(disk[ITab(h)[q]])[m % 32] == ino[m] {
      assert NodeOnDisk(h, disk, m) == ino[m];
    }
  }

  lemma CachedInode(h: HBlock, disk: seq<Block>, ino: seq<INode>, own: seq<Tag>, live: set<nat>, pos: seq<nat>,
                    icindex: nat, icaddr: nat, icache: seq<INode>, i: nat)
    requires Consistent(h, disk, ino, own, live, pos) && ICacheOk(h, ino, icindex, icaddr, icache)
    requires i < h.nextInode && i / 32 == icindex < |ITab(h)|
    ensures i < |ino| && |icache| == 32 && icache[i % 32] == ino[i]
  {
    hide Tree, Nodes, Owned, NodeOnDisk;
  }

  /** Where the next entry of a directory goes: the block, or, if its blocks are
      full, the first free region slot (23 if there is none). */
  method EntryBlock(dinode: INode) returns (found: bool, dbaddr: nat, i: nat)
    requires TableShape(dinode) && ZeroTail(dinode.regStart)
    ensures found <==> dinode.eof < 128 * |NodeBlocks(dinode)|
    ensures found ==> dinode.eof / 128 < |NodeBlocks(dinode)| && dbaddr == NodeBlocks(dinode)[dinode.eof / 128]
    ensures !found ==> FirstFree(dinode.regStart, i) && (i == 23 <==> dinode.regStart[22] != 0)
  {
    hide EntriesOf, InodesOf, BytesOf;
    found, dbaddr, i := false, 0, 0;
    var n, b := 0, 0;
    while i < 23 && dinode.regStart[i] != 0
      invariant i <= 23 && 128 * n <= dinode.eof
      invariant forall j :: 0 <= j < i ==> dinode.regStart[j] != 0
      invariant |NodeBlocks(dinode)| == n + |FlatFrom(dinode.regStart, dinode.regLen, i)|
      invariant At(NodeBlocks(dinode), dinode.eof / 128)
             == At(FlatFrom(dinode.regStart, dinode.regLen, i), dinode.eof / 128 - n)
    {
      b := n + dinode.regLen[i];
      if dinode.eof < b * 128 {
        return true, dinode.regStart[i] + dinode.eof / 128 - n, i;
      }
      n := b;
      i := i + 1;
    }
  }
}
