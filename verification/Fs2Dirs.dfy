/** Changes to directories and to the inode table: what adding, replacing and
    saving inodes and directory entries does to a volume. */
module Fs2Dirs {
  import opened Common
  import opened Fs2Layout
  import opened Fs2State
  import opened Fs2Update

  /** The cached inode block may be newer than the disk, and the header newer
      than block 0; `ino` is the table the cache and the disk hold together. */
  ghost predicate Dirty(h: HBlock, disk: seq<Block>, ino: seq<INode>, own: seq<Tag>, c: Caches) {
    && HeaderOk(h, |disk|) && Owned(h, ino, own) && Nodes(ino)
    && |ino| <= 32 * |ITab(h)| && BlockAt(disk, 0).HeaderBlock?
    && c.icindex < |ITab(h)| && ICacheOk(h, ino, c.icindex, c.icaddr, c.icache)
    && DCacheOk(disk, own, c.dcaddr, c.dcache) && XCacheOk(disk, own, c.xcaddr, c.xcache)
    && forall k :: 0 <= k < |ino| && k / 32 != c.icindex ==> NodeOnDisk(h, disk, k) == ino[k]
  }

  /** Everything is on the disk and the caches agree with it; the tree of names
      is not spoken of, and before the first inode exists neither are block 0 and
      the block whose entries are cached. */
  ghost predicate Clean(h: HBlock, disk: seq<Block>, ino: seq<INode>, own: seq<Tag>, c: Caches) {
    && HeaderOk(h, |disk|) && Owned(h, ino, own) && Nodes(ino)
    && |ino| == h.nextInode <= 32 * |ITab(h)|
    && (ino != [] ==> BlockAt(disk, 0) == HeaderBlock(h))
    && (forall k :: 0 <= k < |ino| ==> NodeOnDisk(h, disk, k) == ino[k])
    && ICacheOk(h, ino, c.icindex, c.icaddr, c.icache) && XCacheOk(disk, own, c.xcaddr, c.xcache)
    && DCacheOk(disk, own, if ino == [] then NO_BLOCK else c.dcaddr, c.dcache)
  }

  /** Saving the cached inode block brings the disk up to date with the table. */
  lemma SaveDirty(h: HBlock, disk: seq<Block>, ino: seq<INode>, own: seq<Tag>, c: Caches)
    requires Dirty(h, disk, ino, own, c)
    ensures c.icaddr < |disk|
    ensures var disk' := disk[c.icaddr := InodeBlock(c.icache)];
            && Dirty(h, disk', ino, own, c)
            && (forall k :: 0 <= k < |ino| ==> NodeOnDisk(h, disk', k) == ino[k])
            && View(disk', ino) == View(disk, ino)
            && BlockAt(disk', 0) == BlockAt(disk, 0)
  {
    hide NodeOk, HeaderOk, NodeOnDisk, View, ITab, EntriesOf, InodesOf, BytesOf;
    assert own[c.icaddr] == InodeTag(c.icindex);
    InodesInDisk(h, |disk|, own, c.icindex);
    SavedInodes(h, disk, own, c.icindex, c.icache);
    SameViews(disk, disk[c.icaddr := InodeBlock(c.icache)], own, ino);
  }

  /** Loading another inode block once the disk is up to date. */
  lemma LoadClean(h: HBlock, disk: seq<Block>, ino: seq<INode>, own: seq<Tag>, c: Caches, q: nat)
    requires Dirty(h, disk, ino, own, c) && q < |ITab(h)|
    requires forall k :: 0 <= k < |ino| ==> NodeOnDisk(h, disk, k) == ino[k]
    ensures ITab(h)[q] < |disk|
    ensures Dirty(h, disk, ino, own, c.(icindex := q, icaddr := ITab(h)[q], icache := InodesOf(disk[ITab(h)[q]])))
  {
    hide EntriesOf, InodesOf, BytesOf;
    assert own[ITab(h)[q]] == InodeTag(q);
    forall k | 0 <= k < |ino| && k / 32 == q ensures InodesOf(disk[ITab(h)[q]])[k % 32] == ino[k] {
      assert NodeOnDisk(h, disk, k) == ino[k];
    }
  }

  /** The header written last makes the volume clean again. */
  lemma SaveHeader(h: HBlock, disk: seq<Block>, ino: seq<INode>, own: seq<Tag>, c: Caches)
    requires Dirty(h, disk, ino, own, c)
    requires forall k :: 0 <= k < |ino| ==> NodeOnDisk(h, disk, k) == ino[k]
    ensures var h' := h.(nextInode := |ino|);
            var disk' := disk[0 := HeaderBlock(h')];
            Clean(h', disk', ino, own, c) && View(disk', ino) == View(disk, ino)
  {
    var h' := h.(nextInode := |ino|);
    hide NodeOk, ITab, View;
    var disk' := disk[0 := HeaderBlock(h')];
    SameInodes(h, disk, disk', own, |ino|);
    forall k | 0 <= k < |ino| ensures NodeOnDisk(h', disk', k) == ino[k] {
      TableStays(h, h', disk', k);
    }
    SameViews(disk, disk', own, ino);
  }

  // ------------------------------------------------------ directory entries

  /** strncpy into a name array: truncated to 28 characters, padded with NULs. */
  function Pad(name: string): (r: string)
    ensures |r| == 28
    ensures |name| <= 28 ==> name <= r
  {
    if |name| >= 28 then name[..28] else name + seq(28 - |name|, i => '\0')
  }

  /** strcpy into a name array: what lies behind the terminator stays. */
  function StrCpy(old_: string, name: string): (r: string)
    requires |old_| == 28 && |name| < 28
    ensures |r| == 28 && name <= r && r[|name|] == '\0'
  {
    name + "\0" + old_[|name| + 1..]
  }

  /** Storing an entry right behind the last one. */
  lemma EntryPut(disk: seq<Block>, own: seq<Tag>, i: nat, blocks: seq<nat>, blocks': seq<nat>, k: nat,
                 ents: seq<DirEntry>, e: DirEntry)
    requires OwnsBlocks(own, i, Dir, blocks') && |own| <= |disk|
    requires blocks <= blocks' && k <= 128 * |blocks| && k / 128 < |blocks'|
    requires |ents| == 128 && NamesOk(ents) && |e.name| == 28
    requires k % 128 == 0 || ents == EntriesOf(BlockAt(disk, blocks'[k / 128]))
    ensures DirEntries(disk[blocks'[k / 128] := DirBlock(ents[k % 128 := e])], blocks', k + 1)
         == DirEntries(disk, blocks, k) + [e]
  {
    hide EntriesOf;
    var a := blocks'[k / 128];
    assert own[a] == DirTag(i, k / 128);
    var disk' := disk[a := DirBlock(ents[k % 128 := e])];
    EntriesKept(ents[k % 128 := e]);
    forall m | 0 <= m < k + 1 ensures EntryAt(disk', blocks', m) == (DirEntries(disk, blocks, k) + [e])[m] {
      assert own[blocks'[m / 128]] == DirTag(i, m / 128);
      if m < k { assert blocks'[m / 128] == blocks[m / 128]; }
    }
  }

  /** There is a place for one more entry, or blocks to make one. */
  predicate CanAdd(h: HBlock, pd: INode) {
    pd.eof < 128 * |NodeBlocks(pd)| || (FreeSlot(pd) && h.nextBlock + h.dregLen <= h.nblocks)
  }

  /** A directory with one more entry, and one more region if it was full. */
  function Added(dregLen: nat, n: Node, e: DirEntry): Node
    requires n.DirNode?
  {
    DirNode(n.entries + [e], if |n.entries| < 128 * n.blocks then n.blocks else n.blocks + dregLen)
  }

  /** Giving directory p the next n free blocks, in region slot s; the header is
      not saved yet. */
  lemma GrowDir(h: HBlock, disk: seq<Block>, ino: seq<INode>, own: seq<Tag>, c: Caches, p: nat, s: nat, n: nat)
    requires Dirty(h, disk, ino, own, c) && p < |ino| && p / 32 == c.icindex
    requires ino[p].ftype.Dir? && Sized(ino[p]) && 1 <= n && h.nextBlock + n <= h.nblocks
    requires TableShape(ino[p]) && s < 23 && FirstFree(ino[p].regStart, s)
    ensures var own', pd := own + Tags(Dir, p, |NodeBlocks(ino[p])|, n), WithRegion(ino[p], s, h.nextBlock, n);
            && Dirty(Bump(h, n), disk, ino[p := pd], own', c.(icache := c.icache[p % 32 := pd]))
            && View(disk, ino[p := pd])
               == View(disk, ino)[p := DirNode(View(disk, ino)[p].entries, |NodeBlocks(pd)|)]
            && NodeBlocks(pd) == NodeBlocks(ino[p]) + Run(h.nextBlock, n)
            && NodeBlocks(ino[p]) <= NodeBlocks(pd) && NodeBlocks(pd)[|NodeBlocks(ino[p])|] == h.nextBlock
  {
    hide HeaderOk, DCacheOk, XCacheOk, NodeBlocks, View, ICacheOk, Owned, Nodes, NodeOnDisk;
    var blocks, pd := NodeBlocks(ino[p]), WithRegion(ino[p], s, h.nextBlock, n);
    DirRegionAdded(h, |disk|, ino, own, p, s, n);
    OwnedGrow(h, ino, own, p, n, pd);
    CacheUpdate(h, Bump(h, n), ino, p, pd, c.icindex, c.icaddr, c.icache);
    SameDir(disk, ino[p], pd);
    SetView(disk, ino, p, pd);
    DirtyGrown(h, disk, ino, own, c, p, pd, n);
    assert NodeBlocks(pd)[|blocks|] == Run(h.nextBlock, n)[0];
  }

  lemma DirtyGrown(h: HBlock, disk: seq<Block>, ino: seq<INode>, own: seq<Tag>, c: Caches, p: nat, pd: INode, n: nat)
    requires Dirty(h, disk, ino, own, c) && p < |ino| && p / 32 == c.icindex && h.nextBlock + n <= h.nblocks
    requires var own' := own + Tags(Dir, p, |NodeBlocks(ino[p])|, n);
             Owned(Bump(h, n), ino[p := pd], own') && Nodes(ino[p := pd])
    requires ICacheOk(Bump(h, n), ino[p := pd], c.icindex, c.icaddr, c.icache[p % 32 := pd])
    ensures var own' := own + Tags(Dir, p, |NodeBlocks(ino[p])|, n);
            Dirty(Bump(h, n), disk, ino[p := pd], own', c.(icache := c.icache[p % 32 := pd]))
  {
    hide Owned, Nodes, ICacheOk, NodeBlocks, EntriesOf, InodesOf, BytesOf;
    forall k | 0 <= k < |ino| && k / 32 != c.icindex
      ensures NodeOnDisk(Bump(h, n), disk, k) == ino[p := pd][k]
    {
      assert NodeOnDisk(h, disk, k) == ino[k];
    }
  }

  lemma DirRegionAdded(h: HBlock, ndisk: nat, ino: seq<INode>, own: seq<Tag>, p: nat, s: nat, n: nat)
    requires HeaderOk(h, ndisk) && Owned(h, ino, own) && Nodes(ino) && p < |ino| && ino[p].ftype.Dir? && Sized(ino[p])
    requires 1 <= n && TableShape(ino[p]) && s < 23 && FirstFree(ino[p].regStart, s)
    ensures var pd := WithRegion(ino[p], s, h.nextBlock, n);
            && NodeOk(pd) && NodeBlocks(pd) == NodeBlocks(ino[p]) + Run(h.nextBlock, n)
            && ino[p].eof <= 128 * |NodeBlocks(ino[p])|
  {
    FlatAppend(ino[p].regStart, ino[p].regLen, s, 0, h.nextBlock, n);
    ZeroTailAppend(ino[p].regStart, s, h.nextBlock);
  }

  /** More blocks behind the entries of a directory change none of them. */
  lemma SameDir(disk: seq<Block>, nd: INode, nd': INode)
    requires nd.ftype.Dir? && nd'.ftype.Dir? && nd'.eof == nd.eof <= 128 * |NodeBlocks(nd)|
    requires NodeBlocks(nd) <= NodeBlocks(nd')
    ensures NodeView(disk, nd).DirNode? && NodeView(disk, nd') == DirNode(NodeView(disk, nd).entries, |NodeBlocks(nd')|)
  {
    hide NodeBlocks;
    var blocks := NodeBlocks(nd);
    forall k | 0 <= k < nd.eof ensures EntryAt(disk, NodeBlocks(nd'), k) == EntryAt(disk, blocks, k) {
      assert NodeBlocks(nd')[k / 128] == blocks[k / 128];
    }
    assert DirEntries(disk, NodeBlocks(nd'), nd.eof) == DirEntries(disk, blocks, nd.eof);
  }

  lemma SameKind(disk: seq<Block>, nd: INode, nd': INode)
    requires nd'.ftype == nd.ftype
    ensures NodeView(disk, nd').DirNode? <==> NodeView(disk, nd).DirNode?
  {
  }

  lemma SetView(disk: seq<Block>, ino: seq<INode>, p: nat, nd: INode)
    requires p < |ino|
    ensures View(disk, ino[p := nd]) == View(disk, ino)[p := NodeView(disk, nd)]
    ensures View(disk, ino)[p] == NodeView(disk, ino[p])
  {
    hide NodeView;
    assert View(disk, ino[p := nd]) == View(disk, ino)[p := NodeView(disk, nd)];
  }

  /** Changing a cached inode without giving it new blocks. */
  lemma SetNode(h: HBlock, disk: seq<Block>, ino: seq<INode>, own: seq<Tag>, c: Caches, p: nat, pd: INode)
    requires Dirty(h, disk, ino, own, c) && p < |ino| && p / 32 == c.icindex
    requires NodeOk(pd) && Owns(own, p, pd)
    ensures Dirty(h, disk, ino[p := pd], own, c.(icache := c.icache[p % 32 := pd]))
    ensures View(disk, ino[p := pd]) == View(disk, ino)[p := NodeView(disk, pd)]
  {
    hide NodeView, EntriesOf, InodesOf, BytesOf;
    var ino' := ino[p := pd];
    CacheUpdate(h, h, ino, p, pd, c.icindex, c.icaddr, c.icache);
    forall m | 0 <= m < |ino| ensures Owns(own, m, ino'[m]) && NodeOk(ino'[m]) {
      assert Owns(own, m, ino[m]) && NodeOk(ino[m]);
    }
    SetView(disk, ino, p, pd);
  }

  /** Rewriting block j of directory p. */
  lemma PutDirBlock(h: HBlock, disk: seq<Block>, ino: seq<INode>, own: seq<Tag>, c: Caches, p: nat, j: nat,
                    ents: seq<DirEntry>)
    requires Dirty(h, disk, ino, own, c) && p < |ino| && ino[p].ftype.Dir? && j < |NodeBlocks(ino[p])|
    requires |ents| == 128 && NamesOk(ents)
    ensures var a := NodeBlocks(ino[p])[j];
            var disk' := disk[a := DirBlock(ents)];
            && 0 < a < |own| <= |disk| && own[a] == DirTag(p, j)
            && Dirty(h, disk', ino, own, c.(dcaddr := a, dcache := ents))
            && OthersSame(disk, disk', ino, p)
  {
    hide NodeView, NodeOnDisk, NodeOk, ITab, ICacheOk;
    var a := NodeBlocks(ino[p])[j];
    assert Owns(own, p, ino[p]) && own[a] == DirTag(p, j);
    var disk' := disk[a := DirBlock(ents)];
    SameInodes(h, disk, disk', own, |ino|);
    OtherViews(disk, disk', own, ino, p);
  }

  /** The directory cache, if it is on block j of directory p, holds that block. */
  lemma CachedDirBlock(h: HBlock, disk: seq<Block>, ino: seq<INode>, own: seq<Tag>, c: Caches, p: nat, j: nat)
    requires Dirty(h, disk, ino, own, c) && p < |ino| && ino[p].ftype.Dir? && j < |NodeBlocks(ino[p])|
    ensures var a := NodeBlocks(ino[p])[j];
            && a < |disk| && |c.dcache| == 128 && NamesOk(c.dcache)
            && (a == c.dcaddr ==> c.dcache == EntriesOf(disk[a]))
  {
    hide EntriesOf, InodesOf, BytesOf;
    PutDirBlock(h, disk, ino, own, c, p, j, c.dcache);
  }

  /** Directory p has one more entry, in the blocks it had. */
  ghost predicate EntryAdded(ino: seq<INode>, ino': seq<INode>, view: seq<Node>, view': seq<Node>, p: nat,
                             e: DirEntry) {
    && |ino'| == |ino| == |view| == |view'| && p < |ino| && view[p].DirNode?
    && ino' == ino[p := ino[p].(eof := ino[p].eof + 1)] && Sized(ino'[p])
    && view' == view[p := DirNode(view[p].entries + [e], |NodeBlocks(ino[p])|)]
  }

  /** Storing one more entry in a block directory p has. */
  lemma PutEntry(h: HBlock, disk: seq<Block>, ino: seq<INode>, own: seq<Tag>, c: Caches, p: nat,
                 ents: seq<DirEntry>, e: DirEntry)
    requires Dirty(h, disk, ino, own, c) && p < |ino| && p / 32 == c.icindex && ino[p].ftype.Dir?
    requires ino[p].eof / 128 < |NodeBlocks(ino[p])|
    requires |ents| == 128 && NamesOk(ents) && |e.name| == 28
    requires ino[p].eof % 128 == 0 || ents == EntriesOf(BlockAt(disk, NodeBlocks(ino[p])[ino[p].eof / 128]))
    ensures var k, blocks := ino[p].eof, NodeBlocks(ino[p]);
            var a, ents', pd := blocks[k / 128], ents[k % 128 := e], ino[p].(eof := k + 1);
            var disk' := disk[a := DirBlock(ents')];
            && a < |disk| && a < |own| && own[a] == DirTag(p, k / 128)
            && Dirty(h, disk', ino[p := pd], own, c.(icache := c.icache[p % 32 := pd], dcaddr := a, dcache := ents'))
            && EntryAdded(ino, ino[p := pd], View(disk, ino), View(disk', ino[p := pd]), p, e)
  {
    hide Dirty, NodeBlocks, NodeShape, DirEntries, View, EntriesOf, InodesOf, BytesOf;
    var k, blocks := ino[p].eof, NodeBlocks(ino[p]);
    var a, ents', pd := blocks[k / 128], ents[k % 128 := e], ino[p].(eof := k + 1);
    DirInHand(h, disk, ino, own, c, p);
    PutDirBlock(h, disk, ino, own, c, p, k / 128, ents');
    var disk' := disk[a := DirBlock(ents')];
    SameTable(ino[p], pd, false);
    EntryPut(disk, own, p, blocks, blocks, k, ents, e);
    SetNode(h, disk', ino, own, c.(dcaddr := a, dcache := ents'), p, pd);
    DirView(disk', pd);
    OtherNode(disk, disk', ino, p, NodeView(disk', pd));
  }

  lemma OtherNode(disk: seq<Block>, disk': seq<Block>, ino: seq<INode>, p: nat, n: Node)
    requires p < |ino| && OthersSame(disk, disk', ino, p)
    ensures View(disk', ino)[p := n] == View(disk, ino)[p := n]
  {
    hide NodeView;
  }

  // --------------------------------------------------------------- new inodes

  /** The header has a free slot, and the volume the blocks, for more inodes. */
  predicate RegionSpace(h: HBlock) {
    |h.regStart| == 800 && h.regStart[799] == 0 && h.nextBlock + h.iregLen <= h.nblocks
  }

  /** Why no region of inodes is to be had. */
  function RegionRefusal(h: HBlock): (o: Outcome)
    ensures o == HBlockFull || o == DiskFull
  {
    if |h.regStart| == 800 && h.regStart[799] == 0 then DiskFull else HBlockFull
  }

  /** Why nothing is created. */
  function CreateRefusal(h: HBlock): (o: Outcome)
    ensures o == HBlockFull || o == DiskFull
  {
    if HasInodeSpace(h) then DiskFull else RegionRefusal(h)
  }

  /** The header is to blame exactly if inodes are needed and none of its 800 slots is
      unused. */
  lemma CreateRefusalMeans(h: HBlock, ndisk: nat)
    requires HeaderOk(h, ndisk)
    ensures CreateRefusal(h) == HBlockFull
       <==> h.nextInode == 32 * |ITab(h)| && forall i :: 0 <= i < 800 ==> h.regStart[i] != 0
  {
    hide ITab;
    if i :| 0 <= i < 800 && h.regStart[i] == 0 { assert i == 799 || h.regStart[799] == 0; }
  }

  /** Blocks the next inode costs before it has any contents. */
  function InodeBlocksNeeded(h: HBlock): nat { if h.nextInode == 32 * |ITab(h)| then h.iregLen else 0 }

  predicate HasInodeSpace(h: HBlock) { h.nextInode == 32 * |ITab(h)| ==> RegionSpace(h) }

  function InodeTags(from: nat, n: nat): (r: seq<Tag>)
    ensures |r| == n && forall j :: 0 <= j < n ==> r[j] == InodeTag(from + j)
  {
    seq(n, (j: nat) => InodeTag(from + j))
  }

  /** h is h0 with one more region of inode blocks at the end of its table. */
  ghost predicate NewIregion(h0: HBlock, h: HBlock) {
    && h == h0.(nextBlock := h0.nextBlock + h0.iregLen, regStart := h.regStart, regLen := h.regLen)
    && h.nextBlock <= h.nblocks
    && |h.regStart| == |h.regLen| == 800 && ZeroTail(h.regStart) && Solid(h.regStart, h.regLen) && Short(h.regLen)
    && ITab(h) == ITab(h0) + Run(h0.nextBlock, h0.iregLen)
  }

  /** A new region makes room for at least one more inode. */
  lemma TableLonger(h0: HBlock, h: HBlock)
    requires NewIregion(h0, h) && h0.nextInode == 32 * |ITab(h0)| && 1 <= h0.iregLen
    ensures h == h0.(nextBlock := h0.nextBlock + InodeBlocksNeeded(h0), regStart := h.regStart, regLen := h.regLen)
    ensures InodeBlocksNeeded(h0) == h0.iregLen && |ITab(h)| == |ITab(h0)| + h0.iregLen
    ensures h.nextInode == h0.nextInode < 32 * |ITab(h)|
  {
    hide Flat;
  }

  lemma TableGrows(h0: HBlock, h: HBlock, disk: seq<Block>, own: seq<Tag>)
    requires HeaderOk(h0, |disk|) && NewIregion(h0, h) && |own| == h0.nextBlock && OwnsInodes(own, ITab(h0))
    ensures 0 < |disk| && HeaderOk(h, |disk|) && |ITab(h)| == |ITab(h0)| + h0.iregLen > |ITab(h0)|
    ensures ITab(h)[|ITab(h0)|] == h0.nextBlock && 0 < |own|
    ensures OwnsInodes(own + InodeTags(|ITab(h0)|, h0.iregLen), ITab(h))
  {
    hide Flat, EntriesOf, InodesOf, BytesOf;
    var own' := own + InodeTags(|ITab(h0)|, h0.iregLen);
    forall j | 0 <= j < |ITab(h)| ensures 0 < ITab(h)[j] < |own'| && own'[ITab(h)[j]] == InodeTag(j) {
      if j < |ITab(h0)| { assert ITab(h)[j] == ITab(h0)[j]; }
    }
  }

  /** A longer inode table finds the old inodes where they were. */
  lemma TableStays(h0: HBlock, h: HBlock, disk: seq<Block>, i: nat)
    requires ITab(h0) <= ITab(h) && i < 32 * |ITab(h0)|
    ensures NodeOnDisk(h, disk, i) == NodeOnDisk(h0, disk, i)
  {
  }

  /** Allocating a region of inode blocks moves no inode. */
  lemma AddIregion(h0: HBlock, h: HBlock, disk: seq<Block>, ino: seq<INode>, own: seq<Tag>, c: Caches)
    requires Clean(h0, disk, ino, own, c) && NewIregion(h0, h) && |ino| == 32 * |ITab(h0)|
    ensures var disk' := disk[0 := HeaderBlock(h)];
            var own' := own + InodeTags(|ITab(h0)|, h0.iregLen);
            var c' := c.(icindex := |ITab(h0)|, icaddr := h0.nextBlock);
            && Clean(h, disk', ino, own', c') && c'.icindex < |ITab(h)| && |ino| < 32 * |ITab(h)|
            && h.nextBlock <= h.nblocks && h.nextInode == h0.nextInode && |disk| > 0
            && h == h0.(nextBlock := h0.nextBlock + h0.iregLen, regStart := h.regStart, regLen := h.regLen)
            && (ino != [] ==> View(disk', ino) == View(disk, ino))
  {
    hide HeaderOk, OwnsInodes, NodeOnDisk, NodeOk, ITab, EntriesOf, InodesOf, BytesOf;
    TableGrows(h0, h, disk, own);
    var disk', more := disk[0 := HeaderBlock(h)], InodeTags(|ITab(h0)|, h0.iregLen);
    var own' := own + more;
    forall k | 0 <= k < |ino| ensures Owns(own', k, ino[k]) {
      assert Owns(own, k, ino[k]);
      OwnsLater(own, more, k, ino[k].ftype, NodeBlocks(ino[k]));
    }
    SameInodes(h0, disk, disk', own, |ino|);
    forall k | 0 <= k < |ino| ensures NodeOnDisk(h, disk', k) == ino[k] {
      TableStays(h0, h, disk', k);
    }
    if ino != [] { SameViews(disk, disk', own, ino); }
  }

  /** Reserving blocks for an inode that is not in the table yet. */
  lemma Reserve(h: HBlock, disk: seq<Block>, ino: seq<INode>, own: seq<Tag>, c: Caches, more: seq<Tag>)
    requires Dirty(h, disk, ino, own, c) && h.nextBlock + |more| <= h.nblocks
    ensures Dirty(Bump(h, |more|), disk, ino, own + more, c)
  {
    hide EntriesOf, InodesOf, BytesOf;
    forall k | 0 <= k < |ino| ensures Owns(own + more, k, ino[k]) {
      assert Owns(own, k, ino[k]);
      OwnsLater(own, more, k, ino[k].ftype, NodeBlocks(ino[k]));
    }
    forall k | 0 <= k < |ino| && k / 32 != c.icindex ensures NodeOnDisk(Bump(h, |more|), disk, k) == ino[k] {
      assert NodeOnDisk(h, disk, k) == ino[k];
    }
  }

  lemma SlotsDiffer(m: nat, n: nat)
    requires m < n && m / 32 == n / 32
    ensures m % 32 != n % 32
  {
  }

  /** Taking the next slot of the cached inode block into the table. */
  lemma AppendNode(h: HBlock, disk: seq<Block>, ino: seq<INode>, own: seq<Tag>, c: Caches, nd: INode)
    requires Dirty(h, disk, ino, own, c) && c.icindex == |ino| / 32
    requires NodeOk(nd) && Owns(own, |ino|, nd)
    ensures Dirty(h, disk, ino + [nd], own, c.(icache := c.icache[|ino| % 32 := nd]))
    ensures View(disk, ino + [nd]) == View(disk, ino) + [NodeView(disk, nd)]
  {
    hide NodeView, DirFits, Solid, Owns, HeaderOk, OwnsInodes, ICacheOk, DCacheOk, XCacheOk, NodeOnDisk, ITab;
    var ino' := ino + [nd];
    forall m | 0 <= m < |ino'| ensures Owns(own, m, ino'[m]) && NodeOk(ino'[m]) {
      if m < |ino| { assert Owns(own, m, ino[m]) && NodeOk(ino[m]); }
    }
    AppendCached(h, ino, c, nd);
    assert View(disk, ino') == View(disk, ino) + [NodeView(disk, nd)];
  }

  lemma AppendCached(h: HBlock, ino: seq<INode>, c: Caches, nd: INode)
    requires ICacheOk(h, ino, c.icindex, c.icaddr, c.icache) && c.icindex == |ino| / 32 < |ITab(h)| && TableShape(nd)
    ensures |c.icache| == 32
    ensures ICacheOk(h, ino + [nd], c.icindex, c.icaddr, c.icache[|ino| % 32 := nd])
  {
    var ino', icache' := ino + [nd], c.icache[|ino| % 32 := nd];
    forall m | 0 <= m < |ino'| && m / 32 == c.icindex ensures icache'[m % 32] == ino'[m] {
      if m < |ino| { SlotsDiffer(m, |ino|); }
    }
  }

  /** Scribbling over a slot that no inode of the table uses. */
  lemma UnusedSlot(h: HBlock, disk: seq<Block>, ino: seq<INode>, own: seq<Tag>, c: Caches, nd: INode)
    requires Clean(h, disk, ino, own, c) && c.icindex == |ino| / 32 && TableShape(nd)
    ensures Clean(h, disk, ino, own, c.(icache := c.icache[|ino| % 32 := nd]))
  {
    hide HeaderOk, Owned, Nodes, XCacheOk, DCacheOk, NodeOnDisk, ITab;
    forall m | 0 <= m < |ino| && m / 32 == c.icindex ensures m % 32 != |ino| % 32 {
      SlotsDiffer(m, |ino|);
    }
  }

  /** A new directory of n blocks, before it has entries. */
  lemma NewDir(h: HBlock, disk: seq<Block>, ino: seq<INode>, own: seq<Tag>, c: Caches, n: nat, nd: INode)
    requires Dirty(h, disk, ino, own, c) && c.icindex == |ino| / 32 && |ino| < 32 * |ITab(h)|
    requires 1 <= n && h.nextBlock + n <= h.nblocks
    requires NodeOk(nd) && nd.ftype.Dir? && nd.eof <= 128 && NodeBlocks(nd) == Run(h.nextBlock, n)
    ensures var own' := own + Tags(Dir, |ino|, 0, n);
            && Dirty(Bump(h, n), disk, ino + [nd], own', c.(icache := c.icache[|ino| % 32 := nd]))
            && View(disk, ino + [nd]) == View(disk, ino) + [NodeView(disk, nd)]
            && NodeBlocks(nd)[0] < |disk|
  {
    hide EntriesOf, InodesOf, BytesOf;
    Reserve(h, disk, ino, own, c, Tags(Dir, |ino|, 0, n));
    assert Bump(h, |Tags(Dir, |ino|, 0, n)|) == Bump(h, n);
    AppendNode(Bump(h, n), disk, ino, own + Tags(Dir, |ino|, 0, n), c, nd);
  }

  /** The entries "." and ".." of a new directory, inode i = the last one. */
  lemma DotEntries(h: HBlock, disk: seq<Block>, ino: seq<INode>, own: seq<Tag>, c: Caches, i: nat, ents: seq<DirEntry>)
    requires Dirty(h, disk, ino, own, c) && |ino| == i + 1 && ino[i].ftype.Dir? && ino[i].eof == 2
    requires 1 <= |NodeBlocks(ino[i])| && |ents| == 128 && NamesOk(ents)
    ensures var a := NodeBlocks(ino[i])[0];
            var disk' := disk[a := DirBlock(ents)];
            && a < |disk| && Dirty(h, disk', ino, own, c.(dcaddr := a, dcache := ents)) && Sized(ino[i])
            && View(disk', ino) == View(disk, ino)[i := DirNode(ents[..2], |NodeBlocks(ino[i])|)]
  {
    hide Dirty, NodeBlocks, Owned, Nodes, HeaderOk, EntriesOf;
    PutDirBlock(h, disk, ino, own, c, i, 0, ents);
    var disk' := disk[NodeBlocks(ino[i])[0] := DirBlock(ents)];
    EntriesKept(ents);
    assert DirEntries(disk', NodeBlocks(ino[i]), 2) == ents[..2];
    assert View(disk', ino) == View(disk, ino)[i := NodeView(disk', ino[i])];
  }

  /** Saving the cached block (if another one is wanted) and loading block q. */
  lemma SwitchBlock(h: HBlock, disk: seq<Block>, ino: seq<INode>, own: seq<Tag>, c: Caches, q: nat)
    requires Dirty(h, disk, ino, own, c) && q < |ITab(h)|
    ensures c.icaddr < |disk| && ITab(h)[q] < |disk|
    ensures var disk' := disk[c.icaddr := InodeBlock(c.icache)];
            && Dirty(h, disk', ino, own,
                     c.(icindex := q, icaddr := ITab(h)[q], icache := InodesOf(disk'[ITab(h)[q]])))
            && View(disk', ino) == View(disk, ino) && BlockAt(disk', 0) == BlockAt(disk, 0)
            && forall k :: 0 <= k < |ino| ==> NodeOnDisk(h, disk', k) == ino[k]
  {
    SaveDirty(h, disk, ino, own, c);
    LoadClean(h, disk[c.icaddr := InodeBlock(c.icache)], ino, own, c, q);
  }

  /** The first two entries of a new directory; only the terminated strings are
      written, what the name arrays held behind them stays. */
  function DotBlock(ents: seq<DirEntry>, self: nat, parent: nat): (r: seq<DirEntry>)
    requires |ents| == 128 && NamesOk(ents)
    ensures |r| == 128 && NamesOk(r)
  {
    ents[0 := DirEntry(self, StrCpy(ents[0].name, "."))][1 := DirEntry(parent, StrCpy(ents[1].name, ".."))]
  }

  /** The view of inode i right after its creation below directory `parent`. */
  ghost predicate NewView(n: Node, ft: FType, i: nat, parent: nat, dregLen: nat) {
    if ft.File? then n == FileNode([])
    else
      && n.DirNode? && n.blocks == dregLen && |n.entries| == 2
      && n.entries[0].inodeIndex == i && "." + "\0" <= n.entries[0].name
      && n.entries[1].inodeIndex == parent && ".." + "\0" <= n.entries[1].name
  }

  /** The table has one more inode at its end, new and below directory `parent`;
      if it is a directory, it has been given the blocks from a on. */
  ghost predicate NodeAdded(ino: seq<INode>, ino': seq<INode>, view: seq<Node>, view': seq<Node>, ft: FType,
                            parent: nat, dregLen: nat, a: nat)
  {
    var i := |ino|;
    && |ino'| == |view'| == i + 1 && ino'[..i] == ino && view'[..i] == view
    && Sized(ino'[i]) && ino'[i].ftype == ft && ino'[i].iparent == parent
    && NewView(view'[i], ft, i, parent, dregLen) && Given(ino'[i], ft, a, dregLen)
  }

  /** The blocks of a new inode: n from a on for a directory, none for a file. */
  predicate Given(nd: INode, ft: FType, a: nat, n: nat) {
    if ft.Dir? then NodeBlocks(nd) == Run(a, n) else NodeBlocks(nd) == [] && FreeSlot(nd)
  }

  lemma DotsAre(ents: seq<DirEntry>, i: nat, parent: nat, n: nat)
    requires |ents| == 128 && NamesOk(ents)
    ensures NewView(DirNode(DotBlock(ents, i, parent)[..2], n), Dir, i, parent, n)
  {
  }

  /** What the directory cache holds may always be forgotten. */
  lemma DirForgotten(h: HBlock, disk: seq<Block>, ino: seq<INode>, own: seq<Tag>, c: Caches)
    requires Clean(h, disk, ino, own, c)
    ensures Clean(h, disk, ino, own, c.(dcaddr := NO_BLOCK))
  {
    hide EntriesOf, InodesOf, BytesOf;
  }

  /** A new directory inode with its two entries in place. */
  lemma FreshDir(h: HBlock, disk: seq<Block>, ino: seq<INode>, own: seq<Tag>, c: Caches, n: nat, nd: INode, parent: nat,
                 ents: seq<DirEntry>)
    requires Clean(h, disk, ino, own, c) && c.icindex == |ino| / 32 < |ITab(h)| && BlockAt(disk, 0).HeaderBlock?
    requires |ino| < 32 * |ITab(h)| && 1 <= n && h.nextBlock + n <= h.nblocks
    requires NodeOk(nd) && nd.ftype.Dir? && nd.eof == 2 && NodeBlocks(nd) == Run(h.nextBlock, n)
    requires |ents| == 128 && NamesOk(ents)
    ensures var own' := own + Tags(Dir, |ino|, 0, n);
            var disk' := disk[h.nextBlock := DirBlock(DotBlock(ents, |ino|, parent))];
            && h.nextBlock < |disk| && Sized(nd)
            && Dirty(Bump(h, n), disk', ino + [nd], own',
                     c.(icache := c.icache[|ino| % 32 := nd], dcaddr := h.nextBlock,
                        dcache := DotBlock(ents, |ino|, parent)))
            && |View(disk', ino + [nd])| == |ino| + 1 && View(disk', ino + [nd])[..|ino|] == View(disk, ino)
            && NewView(View(disk', ino + [nd])[|ino|], Dir, |ino|, parent, n)
  {
    hide Clean, Dirty, NodeBlocks, NodeOk, NodeView, DotBlock, NewView, EntriesOf, InodesOf, BytesOf;
    var c0 := c.(dcaddr := NO_BLOCK);
    DirForgotten(h, disk, ino, own, c);
    CleanDirty(h, disk, ino, own, c0);
    var own', c' := own + Tags(Dir, |ino|, 0, n), c0.(icache := c.icache[|ino| % 32 := nd]);
    NewDir(h, disk, ino, own, c0, n, nd);
    DotsAre(ents, |ino|, parent, n);
    DotEntries(Bump(h, n), disk, ino + [nd], own', c', |ino|, DotBlock(ents, |ino|, parent));
  }

  lemma FreshFile(h: HBlock, disk: seq<Block>, ino: seq<INode>, own: seq<Tag>, c: Caches, nd: INode, parent: nat,
                  n: nat)
    requires Clean(h, disk, ino, own, c) && c.icindex == |ino| / 32 < |ITab(h)| && BlockAt(disk, 0).HeaderBlock?
    requires 0 < |ino| < 32 * |ITab(h)|
    requires NodeOk(nd) && nd.ftype.File? && nd.eof == 0 && NodeBlocks(nd) == []
    ensures Sized(nd)
    ensures Dirty(h, disk, ino + [nd], own, c.(icache := c.icache[|ino| % 32 := nd]))
    ensures |View(disk, ino + [nd])| == |ino| + 1 && View(disk, ino + [nd])[..|ino|] == View(disk, ino)
    ensures NewView(View(disk, ino + [nd])[|ino|], File, |ino|, parent, n)
  {
    hide EntriesOf, InodesOf, BytesOf;
    AppendNode(h, disk, ino, own, c, nd);
    assert NodeView(disk, nd) == FileNode([]);
  }

  /** The region table of an inode with its first region set. */
  lemma FirstRegion(start: seq<nat>, len: seq<nat>, a: nat, n: nat)
    requires |start| == |len| == 23 && forall j :: 0 <= j < 23 ==> start[j] == 0
    ensures Flat(start, len) == []
    ensures a != 0 ==> Flat(start[0 := a], len[0 := n]) == Run(a, n)
  {
    if a != 0 { FlatAppend(start, len, 0, 0, a, n); }
  }

  lemma BlockOfInode(h: HBlock, disk: seq<Block>, ino: seq<INode>, own: seq<Tag>, c: Caches, p: nat)
    requires Dirty(h, disk, ino, own, c) && p < |ino|
    ensures p / 32 < |ITab(h)| && HeaderOk(h, |disk|) && |c.icache| == 32
  {
  }

  /** Blocks of a new inode itself. */
  function DirBlocks(h: HBlock, ftype: FType): nat { if ftype.Dir? then h.dregLen else 0 }

  /** Blocks a new inode takes before it is entered in its parent. */
  function Reserved(h: HBlock, ftype: FType): nat { InodeBlocksNeeded(h) + DirBlocks(h, ftype) }

  /** The header once a new inode and `blocks` blocks have been taken into use. */
  ghost predicate Charged(h0: HBlock, h: HBlock, blocks: nat) {
    && h == h0.(nextInode := h0.nextInode + 1, nextBlock := h0.nextBlock + blocks,
                regStart := h.regStart, regLen := h.regLen)
    && (InodeBlocksNeeded(h0) == 0 ==> h.regStart == h0.regStart && h.regLen == h0.regLen)
    && |ITab(h)| == |ITab(h0)| + InodeBlocksNeeded(h0)
  }

  /** Blocks the entry for a new inode takes in directory pd. */
  function EntryBlocks(h: HBlock, pd: INode): nat { if pd.eof < 128 * |NodeBlocks(pd)| then 0 else h.dregLen }

  lemma ReservedIs(h: HBlock, ftype: FType)
    ensures DirBlocks(h, ftype) == if ftype.Dir? then h.dregLen else 0
    ensures Reserved(h, ftype) == InodeBlocksNeeded(h) + DirBlocks(h, ftype)
  {
  }

  lemma BumpIs(h: HBlock, n: nat)
    ensures Bump(h, n).nextInode == h.nextInode && Bump(h, n).dregLen == h.dregLen
  {
  }

  /** What format has set in the header, and nothing changes later. */
  predicate SameDefaults(h: HBlock, h': HBlock) {
    && h'.ident == h.ident && h'.separator == h.separator && h'.nblocks == h.nblocks && h'.defaultPerm == h.defaultPerm
    && h'.iregLen == h.iregLen && h'.fregLen == h.fregLen && h'.dregLen == h.dregLen
  }

  lemma DefaultsStay(h0: HBlock, h1: HBlock, h2: HBlock, h: HBlock)
    requires h1 == h0.(nextBlock := h1.nextBlock, regStart := h1.regStart, regLen := h1.regLen)
    requires h2 == h1 || h2 == Bump(h1, h1.dregLen)
    requires h == h2.(nextInode := h2.nextInode + 1)
    ensures SameDefaults(h0, h)
  {
  }

  lemma SameLengths(h: HBlock, h': HBlock)
    requires SameDefaults(h, h')
    ensures h'.iregLen == h.iregLen && h'.fregLen == h.fregLen && h'.dregLen == h.dregLen
    ensures h'.nblocks == h.nblocks && h'.defaultPerm == h.defaultPerm
  {
  }

  lemma SameTab(h: HBlock, h': HBlock)
    requires h' == h.(nextInode := h'.nextInode)
    ensures ITab(h') == ITab(h)
  {
  }

  /** What a creation takes of the volume: h0 is the header before it, h1 with the
      inode's blocks, h2 with those of its entry as well. */
  lemma ChargedBy(h0: HBlock, h1: HBlock, h2: HBlock, h: HBlock, ino: seq<INode>, p: nat, ftype: FType, linked: bool)
    requires h1 == h0.(nextBlock := h0.nextBlock + Reserved(h0, ftype), regStart := h1.regStart, regLen := h1.regLen)
    requires InodeBlocksNeeded(h0) == 0 ==> h1.regStart == h0.regStart && h1.regLen == h0.regLen
    requires |ITab(h1)| == |ITab(h0)| + InodeBlocksNeeded(h0)
    requires if ino == [] then !linked else p < |ino| && (linked <==> CanAdd(h1, ino[p]))
    requires h2 == if linked then Bump(h1, EntryBlocks(h1, ino[p])) else h1
    requires h == h2.(nextInode := h2.nextInode + 1)
    ensures if ino == [] then Charged(h0, h, Reserved(h0, ftype))
            else
              && (linked <==> CanAdd(Bump(h0, Reserved(h0, ftype)), ino[p]))
              && Charged(h0, h, Reserved(h0, ftype) + if linked then EntryBlocks(h0, ino[p]) else 0)
  {
    hide NodeBlocks, FlatFrom, FreeSlot, InodeBlocksNeeded, Reserved;
    SameTab(h2, h);
  }

  /** The same blocks, or n more from r on. */
  predicate Extended(blocks: seq<nat>, blocks': seq<nat>, r: nat, n: nat) {
    blocks' == blocks || blocks' == blocks + Run(r, n)
  }

  /** Directory p has got one more entry, and a new region at r if it was full;
      nothing else has changed. */
  ghost predicate Linkage(ino: seq<INode>, ino': seq<INode>, view: seq<Node>, view': seq<Node>, p: nat, e: DirEntry,
                          dregLen: nat, r: nat)
  {
    && |ino'| == |ino| == |view| == |view'| && p < |ino| && view[p].DirNode?
    && ino' == ino[p := ino'[p]] && Sized(ino'[p])
    && ino'[p].ftype == ino[p].ftype && ino'[p].iparent == ino[p].iparent
    && Extended(NodeBlocks(ino[p]), NodeBlocks(ino'[p]), r, dregLen)
    && view' == view[p := Added(dregLen, view[p], e)]
  }

  /** The new entry went into a block the directory had. */
  lemma LinkedInPlace(disk: seq<Block>, ino: seq<INode>, ino': seq<INode>, view': seq<Node>, p: nat, e: DirEntry,
                      dregLen: nat, r: nat)
    requires p < |ino| && ino[p].ftype.Dir? && ino[p].eof < 128 * |NodeBlocks(ino[p])|
    requires EntryAdded(ino, ino', View(disk, ino), view', p, e)
    ensures Linkage(ino, ino', View(disk, ino), view', p, e, dregLen, r)
  {
    hide NodeBlocks, Sized, DirEntries, FileBytes;
    SameBlocks(ino[p], ino'[p]);
  }

  /** The new entry went into a new region: ino1 is the table in between. */
  lemma LinkedInNew(disk: seq<Block>, ino: seq<INode>, ino1: seq<INode>, ino': seq<INode>, view': seq<Node>, p: nat,
                    e: DirEntry, dregLen: nat, r: nat)
    requires p < |ino| && ino[p].ftype.Dir? && 128 * |NodeBlocks(ino[p])| <= ino[p].eof
    requires |ino1| == |ino| && ino1 == ino[p := ino[p].(regStart := ino1[p].regStart, regLen := ino1[p].regLen)]
    requires NodeBlocks(ino1[p]) == NodeBlocks(ino[p]) + Run(r, dregLen)
    requires View(disk, ino)[p].DirNode?
    requires View(disk, ino1) == View(disk, ino)[p := DirNode(View(disk, ino)[p].entries, |NodeBlocks(ino1[p])|)]
    requires EntryAdded(ino1, ino', View(disk, ino1), view', p, e)
    ensures Linkage(ino, ino', View(disk, ino), view', p, e, dregLen, r)
  {
    hide NodeBlocks, Sized, DirEntries, FileBytes, EntriesOf, InodesOf, BytesOf;
    SameBlocks(ino1[p], ino'[p]);
  }

  /** A new inode at the end of the table, below directory p, which has got an
      entry for it if `linked`. */
  ghost predicate Entered(ino: seq<INode>, ino': seq<INode>, view: seq<Node>, view': seq<Node>, p: nat, name: string,
                          ft: FType, dregLen: nat, a: nat, linked: bool)
  {
    var i := |ino|;
    && |ino'| == |view'| == i + 1
    && Sized(ino'[i]) && ino'[i].ftype == ft && ino'[i].iparent == p && NewView(view'[i], ft, i, p, dregLen)
    && Given(ino'[i], ft, a, dregLen)
    && (!linked ==> ino'[..i] == ino && view'[..i] == view)
    && (linked ==> Linkage(ino, ino'[..i], view, view'[..i], p, DirEntry(i, Pad(name)), dregLen,
                           a + if ft.Dir? then dregLen else 0))
  }

  lemma ParentStays(ino: seq<INode>, ino': seq<INode>, view: seq<Node>, view': seq<Node>, p: nat, ft: FType,
                    dregLen: nat, a: nat)
    requires NodeAdded(ino, ino', view, view', ft, p, dregLen, a)
    ensures |ino'| == |ino| + 1 == |view'| && (p < |ino| ==> ino'[p] == ino[p])
  {
    hide Sized, NewView;
    if p < |ino| { assert ino'[p] == ino'[..|ino|][p]; }
  }

  /** The two halves of a creation put together. */
  lemma EnteredBy(ino: seq<INode>, ino1: seq<INode>, ino': seq<INode>, view: seq<Node>, view1: seq<Node>,
                  view': seq<Node>, p: nat, name: string, ft: FType, dregLen: nat, a: nat, linked: bool)
    requires NodeAdded(ino, ino1, view, view1, ft, p, dregLen, a)
    requires if linked then p < |ino| && Linkage(ino1, ino', view1, view', p, DirEntry(|ino|, Pad(name)), dregLen,
                                                 a + if ft.Dir? then dregLen else 0)
             else ino' == ino1 && view' == view1
    ensures Entered(ino, ino', view, view', p, name, ft, dregLen, a, linked) && |ino'| == |ino| + 1
  {
    hide Sized, NewView, Added, NodeBlocks, Given;
    var i := |ino|;
    if linked {
      assert ino'[i] == ino1[i] && view'[i] == view1[i];
      assert ino1[p] == ino1[..i][p] && view1[p] == view1[..i][p];
      assert ino'[..i] == ino[p := ino'[p]];
      assert view'[..i] == view[p := view'[p]];
    }
  }

  lemma CleanCount(h: HBlock, disk: seq<Block>, ino: seq<INode>, own: seq<Tag>, c: Caches, ready: bool)
    requires ready ==> Clean(h, disk, ino, own, c)
    ensures ready ==> h.nextInode == |ino| && HeaderOk(h, |disk|)
  {
  }

  /** What looking for the next inode's block finds in a clean volume. */
  lemma NextInodeBlock(h: HBlock, disk: seq<Block>, ino: seq<INode>, own: seq<Tag>, c: Caches)
    requires Clean(h, disk, ino, own, c)
    ensures |ino| == h.nextInode && h.nextBlock <= h.nblocks && h.nextInode <= 32 * |ITab(h)|
    ensures ino != [] ==> BlockAt(disk, 0) == HeaderBlock(h)
    ensures var q := h.nextInode / 32;
            if q < |ITab(h)|
            then && ITab(h)[q] < |disk|
                 && Clean(h, disk, ino, own,
                          c.(icindex := q, icaddr := ITab(h)[q], icache := InodesOf(disk[ITab(h)[q]])))
            else && |ino| == 32 * |ITab(h)| && q == |ITab(h)|
                 && Clean(h, disk, ino, own, c.(icindex := q, icaddr := 0))
  {
    hide EntriesOf, InodesOf, BytesOf;
    var q := h.nextInode / 32;
    if q < |ITab(h)| {
      assert own[ITab(h)[q]] == InodeTag(q);
      forall k | 0 <= k < |ino| && k / 32 == q ensures InodesOf(disk[ITab(h)[q]])[k % 32] == ino[k] {
        assert NodeOnDisk(h, disk, k) == ino[k];
      }
    }
  }

  // --------------------------------------------------------------- unlinking

  /** Index of the first entry at or after k that names inode x. */
  function LinkOf(es: seq<DirEntry>, x: nat, k: nat): (r: nat)
    requires k <= |es|
    ensures k <= r <= |es| && (r < |es| ==> es[r].inodeIndex == x)
    ensures forall m :: k <= m < r ==> es[m].inodeIndex != x
    decreases |es| - k
  {
    if k == |es| || es[k].inodeIndex == x then k else LinkOf(es, x, k + 1)
  }

  /** fs2_unlink compares slot k % 32 of the block of entry k, so it only ever
      sees the first 32 entries of a block. */
  predicate InReach(k: nat) { k % 128 < 32 }

  /** k is the link to inode x that fs2_unlink finds. */
  ghost predicate SeenLink(es: seq<DirEntry>, x: nat, k: nat) {
    && k < |es| && InReach(k) && es[k].inodeIndex == x
    && NoLink(es, x, k)
  }

  /** No entry before the n-th that fs2_unlink looks at names inode x. */
  ghost predicate NoLink(es: seq<DirEntry>, x: nat, n: nat)
    requires n <= |es|
  {
    forall m :: 0 <= m < n && InReach(m) ==> es[m].inodeIndex != x
  }

  /** The slot compared at step k holds an entry that was reached before, or k itself. */
  lemma ComparedSlot(k: nat)
    ensures k % 32 < 128 && 128 * (k / 128) + k % 32 <= k && InReach(128 * (k / 128) + k % 32)
    ensures (128 * (k / 128) + k % 32) / 128 == k / 128 && (128 * (k / 128) + k % 32) % 128 == k % 32
    ensures 128 * (k / 128) + k % 32 == k <==> InReach(k)
  {
    var q, r := k / 128, k % 128;
    assert k % 32 == r % 32;
    InDirBlock(q, r % 32);
  }

  lemma InDirBlock(m: nat, r: nat)
    requires r < 128
    ensures (128 * m + r) / 128 == m && (128 * m + r) % 128 == r
  {
  }

  /** What fs2_unlink puts in the place of entry k: the last entry, read through
      the general purpose cache if it is in another block. */
  function Replacement(es: seq<DirEntry>, blocks: seq<nat>, k: nat, xcaddr: nat, xcache: Block): DirEntry
    requires k < |es|
  {
    var last := |es| - 1;
    if k / 128 != last / 128 && xcaddr == At(blocks, last / 128) then EntriesOf(xcache)[last % 128] else es[last]
  }

  /** What the general purpose cache holds after that. */
  ghost predicate LastLoaded(es: seq<DirEntry>, blocks: seq<nat>, k: nat, xcaddr: nat, xcache: Block,
                             xcaddr': nat, xcache': Block)
    requires es != []
  {
    var last, b := |es| - 1, (|es| - 1) / 128;
    if k / 128 == b then xcaddr' == xcaddr && xcache' == xcache
    else
      && xcaddr' == At(blocks, b)
      && (xcaddr == xcaddr' ==> xcache' == xcache)
      && (xcaddr != xcaddr' ==>
            forall j {:trigger es[j]} :: 128 * b <= j <= last ==> EntriesOf(xcache')[j % 128] == es[j])
  }

  /** Reading the last entry through the caches. */
  lemma LastRead(disk: seq<Block>, blocks: seq<nat>, eof: nat, k: nat, x0: nat, c0: Block, x1: nat, c1: Block,
                 le: DirEntry)
    requires k + 1 < eof <= 128 * |blocks|
    requires var b := (eof - 1) / 128;
             var a := At(blocks, b);
             if k / 128 == b then x1 == x0 && c1 == c0 && le == EntriesOf(BlockAt(disk, a))[(eof - 1) % 128]
             else x1 == a && c1 == (if x0 == a then c0 else BlockAt(disk, a)) && le == EntriesOf(c1)[(eof - 1) % 128]
    ensures var es := DirEntries(disk, blocks, eof);
            le == Replacement(es, blocks, k, x0, c0) && LastLoaded(es, blocks, k, x0, c0, x1, c1)
  {
    hide EntriesOf, BlockAt;
  }

  /** The last entry stands for itself. */
  lemma KeptAsLast(disk: seq<Block>, blocks: seq<nat>, eof: nat, k: nat, xcaddr: nat, xcache: Block)
    requires k < eof
    ensures k == eof - 1 ==>
              var es := DirEntries(disk, blocks, eof);
              && Replacement(es, blocks, k, xcaddr, xcache) == EntriesOf(BlockAt(disk, At(blocks, k / 128)))[k % 128]
              && LastLoaded(es, blocks, k, xcaddr, xcache, xcaddr, xcache)
  {
  }

  /** Entries after the k-th has been overwritten and the last one dropped. */
  function Dropped(es: seq<DirEntry>, k: nat, e: DirEntry): seq<DirEntry>
    requires k < |es|
  {
    es[k := e][..|es| - 1]
  }

  /** Directory n, of inode nd, has lost entry k: the entry the general purpose
      cache (xcaddr, xcache) shows as the last one is in its place, and the last
      one is dropped. */
  ghost predicate GapFilled(n: Node, n': Node, nd: INode, nd': INode, k: nat, xcaddr: nat, xcache: Block,
                            xcaddr': nat, xcache': Block)
  {
    && n.DirNode? && k < |n.entries| && 1 <= nd.eof && nd' == nd.(eof := nd.eof - 1) && Sized(nd')
    && n' == DirNode(Dropped(n.entries, k, Replacement(n.entries, NodeBlocks(nd), k, xcaddr, xcache)), n.blocks)
    && LastLoaded(n.entries, NodeBlocks(nd), k, xcaddr, xcache, xcaddr', xcache')
  }

  ghost predicate EntryTaken(ino: seq<INode>, ino': seq<INode>, view: seq<Node>, view': seq<Node>, p: nat, k: nat,
                             xcaddr: nat, xcache: Block, xcaddr': nat, xcache': Block)
  {
    && |ino'| == |ino| == |view| == |view'| && p < |ino|
    && ino' == ino[p := ino'[p]] && view' == view[p := view'[p]]
    && GapFilled(view[p], view'[p], ino[p], ino'[p], k, xcaddr, xcache, xcaddr', xcache')
  }

  /** No node but x and p has changed, and none from a file to a directory or back. */
  ghost predicate OnlyThese(view: seq<Node>, view': seq<Node>, x: nat, p: nat) {
    && |view'| == |view|
    && (forall m :: 0 <= m < |view| && m != x && m != p ==> view'[m] == view[m])
    && forall m :: 0 <= m < |view| ==> (view'[m].DirNode? <==> view[m].DirNode?)
  }

  /** An inode with its region table wiped, as fs2_rm leaves it. */
  function Wiped(nd: INode): INode { nd.(regStart := Zeroes(23)) }

  /** A removed inode's node: a directory has its entries still, or none. */
  ghost predicate Cleared(n: Node, n': Node) { n'.DirNode? ==> n' == n || n' == DirNode([], 0) }

  lemma WipedView(disk: seq<Block>, nd: INode)
    ensures NodeView(disk, Wiped(nd)).DirNode? ==> NodeView(disk, Wiped(nd)) == DirNode([], 0)
  {
    WipedBlocks(nd);
    assert nd.ftype.Dir? ==> DirEntries(disk, [], 0) == [];
  }

  /** What fs2_unlink makes of directory p, asked to take inode x out of it. */
  ghost predicate Unlinking(ino: seq<INode>, ino': seq<INode>, view: seq<Node>, view': seq<Node>, p: nat, x: nat,
                            k: nat, xcaddr: nat, xcache: Block, xcaddr': nat, xcache': Block, outcome: Outcome)
  {
    && p < |view| && view[p].DirNode?
    && if outcome == Success then
         SeenLink(view[p].entries, x, k) && EntryTaken(ino, ino', view, view', p, k, xcaddr, xcache, xcaddr', xcache')
       else Unseen(view, p, x) && ino' == ino && view' == view && xcaddr' == xcaddr && xcache' == xcache
  }

  /** The same for fs2_rm from the wiping of the inode on; `move` says that x is
      not the last inode, and so is wiped. */
  ghost predicate Dropping(ino: seq<INode>, ino': seq<INode>, view: seq<Node>, view': seq<Node>, p: nat, x: nat, k: nat,
                           xcaddr: nat, xcache: Block, xcaddr': nat, xcache': Block, outcome: Outcome, move: bool)
  {
    && |ino'| == |ino| == |view| == |view'| && p < |ino| && x < |ino| && view[p].DirNode?
    && OnlyThese(view, view', x, p) && ((x == p && outcome == Success) || Cleared(view[x], view'[x]))
    && if outcome == Success then
         && (move ==> x != p) && SeenLink(view[p].entries, x, k)
         && (forall m :: 0 <= m < |ino| && m != x && m != p ==> ino'[m] == ino[m])
         && GapFilled(view[p], view'[p], ino[p], ino'[p], k, xcaddr, xcache, xcaddr', xcache')
       else
         && xcaddr' == xcaddr && xcache' == xcache
         && (!move || x != p ==> Unseen(view, p, x) && view'[p] == view[p])
         && (if move then ino' == ino[x := Wiped(ino[x])] else view' == view && ino' == ino)
  }

  lemma DroppingIs(ino: seq<INode>, ino1: seq<INode>, ino': seq<INode>, view: seq<Node>, view1: seq<Node>,
                   view': seq<Node>, p: nat, x: nat, k: nat, xcaddr: nat, xcache: Block, xcaddr': nat, xcache': Block,
                   outcome: Outcome, move: bool)
    requires |ino| == |view| && x < |ino| && p < |ino| && view[p].DirNode?
    requires if move then ino1 == ino[x := Wiped(ino[x])] && |view1| == |view| && view1 == view[x := view1[x]]
                          && (view1[x].DirNode? <==> view[x].DirNode?) && Cleared(view[x], view1[x])
             else ino1 == ino && view1 == view
    requires if move && x == p
             then outcome == NoFile && ino' == ino1 && view' == view1 && xcaddr' == xcaddr && xcache' == xcache
             else Unlinking(ino1, ino', view1, view', p, x, k, xcaddr, xcache, xcaddr', xcache', outcome)
    ensures Dropping(ino, ino', view, view', p, x, k, xcaddr, xcache, xcaddr', xcache', outcome, move)
  {
    hide SeenLink, NoLink, Wiped, Sized, Dropped, Replacement, LastLoaded;
  }

  lemma TakenIs(disk: seq<Block>, ino: seq<INode>, p: nat, k: nat, e: DirEntry, xcaddr: nat, xcache: Block,
                xcaddr': nat, xcache': Block)
    requires p < |ino| && ino[p].ftype.Dir? && Sized(ino[p]) && k < ino[p].eof
    requires var es, blocks := DirEntries(disk, NodeBlocks(ino[p]), ino[p].eof), NodeBlocks(ino[p]);
             && e == Replacement(es, blocks, k, xcaddr, xcache)
             && LastLoaded(es, blocks, k, xcaddr, xcache, xcaddr', xcache')
    requires Sized(ino[p].(eof := ino[p].eof - 1))
    ensures var view, es := View(disk, ino), DirEntries(disk, NodeBlocks(ino[p]), ino[p].eof);
            EntryTaken(ino, ino[p := ino[p].(eof := ino[p].eof - 1)], view,
                       view[p := DirNode(Dropped(es, k, e), |NodeBlocks(ino[p])|)], p, k,
                       xcaddr, xcache, xcaddr', xcache')
  {
    hide NodeBlocks, Sized, DirEntries, FileBytes, Replacement, LastLoaded, Dropped;
    DirView(disk, ino[p]);
  }

  /** fs2_unlink sees no link to x in directory p. */
  ghost predicate Unseen(view: seq<Node>, p: nat, x: nat) {
    p < |view| && view[p].DirNode? && NoLink(view[p].entries, x, |view[p].entries|)
  }

  /** Dropping entry k for the last one loses entry k and no other. */
  lemma DroppedSame(es: seq<DirEntry>, k: nat)
    requires k < |es|
    ensures multiset(Dropped(es, k, es[|es| - 1])) + multiset{es[k]} == multiset(es)
    ensures |Dropped(es, k, es[|es| - 1])| == |es| - 1
  {
    hide EntriesOf, InodesOf, BytesOf;
    var last := |es| - 1;
    if k == last {
      assert es == es[..last] + [es[last]] && Dropped(es, k, es[last]) == es[..last];
    } else {
      assert es == es[..k] + [es[k]] + es[k + 1..last] + [es[last]];
      assert Dropped(es, k, es[last]) == es[..k] + [es[last]] + es[k + 1..last];
    }
  }

  /** Overwriting entry k of directory p and dropping its last entry. */
  lemma RemoveEntry(h: HBlock, disk: seq<Block>, ino: seq<INode>, own: seq<Tag>, c: Caches, p: nat, k: nat,
                    ents: seq<DirEntry>, e: DirEntry)
    requires Dirty(h, disk, ino, own, c) && p < |ino| && p / 32 == c.icindex && ino[p].ftype.Dir? && Sized(ino[p])
    requires k < ino[p].eof && |ents| == 128 && NamesOk(ents)
    requires ents == EntriesOf(BlockAt(disk, At(NodeBlocks(ino[p]), k / 128)))[k % 128 := e]
    ensures var blocks, pd := NodeBlocks(ino[p]), ino[p].(eof := ino[p].eof - 1);
            var a := At(blocks, k / 128);
            var disk' := disk[a := DirBlock(ents)];
            && 0 < a < |disk| && Sized(pd)
            && Dirty(h, disk', ino[p := pd], own, c.(icache := c.icache[p % 32 := pd], dcaddr := a, dcache := ents))
            && View(disk', ino[p := pd])
               == View(disk, ino)[p := DirNode(Dropped(DirEntries(disk, blocks, ino[p].eof), k, e), |blocks|)]
  {
    hide Dirty, NodeBlocks, NodeShape, DirEntries, View, Dropped, EntriesOf, InodesOf, BytesOf;
    var blocks, pd := NodeBlocks(ino[p]), ino[p].(eof := ino[p].eof - 1);
    DirInHand(h, disk, ino, own, c, p);
    PutDirBlock(h, disk, ino, own, c, p, k / 128, ents);
    var disk' := disk[blocks[k / 128] := DirBlock(ents)];
    SameTable(ino[p], pd, false);
    EntryDropped(disk, own, p, blocks, ino[p].eof, k, ents, e);
    SetNode(h, disk', ino, own, c.(dcaddr := blocks[k / 128], dcache := ents), p, pd);
    DirView(disk', pd);
    OtherNode(disk, disk', ino, p, NodeView(disk', pd));
  }

  /** A directory whose blocks are full ends exactly with a block. */
  lemma FullDir(nd: INode)
    requires nd.ftype.Dir? && Sized(nd) && 128 * |NodeBlocks(nd)| <= nd.eof
    ensures nd.eof == 128 * |NodeBlocks(nd)| && nd.eof % 128 == 0 && nd.eof / 128 == |NodeBlocks(nd)|
  {
    hide NodeBlocks;
  }

  lemma SameBlocks(nd: INode, nd': INode)
    requires nd' == nd.(eof := nd'.eof, iparent := nd'.iparent)
    ensures NodeBlocks(nd') == NodeBlocks(nd)
  {
    hide Flat;
  }

  lemma SameTable(nd: INode, nd': INode, solid: bool)
    requires nd' == nd.(eof := nd'.eof, iparent := nd'.iparent)
    requires NodeShape(nd, solid)
    requires nd.ftype.File? || nd'.eof <= nd.eof || nd'.eof <= 128 * |NodeBlocks(nd)|
    ensures NodeBlocks(nd') == NodeBlocks(nd) && NodeShape(nd', solid)
  {
    hide Flat;
  }

  lemma EntryDropped(disk: seq<Block>, own: seq<Tag>, i: nat, blocks: seq<nat>, eof: nat, k: nat,
                     ents: seq<DirEntry>, e: DirEntry)
    requires OwnsBlocks(own, i, Dir, blocks) && |own| <= |disk| && k < eof <= 128 * |blocks|
    requires |ents| == 128 && NamesOk(ents) && ents == EntriesOf(BlockAt(disk, blocks[k / 128]))[k % 128 := e]
    ensures DirEntries(disk[blocks[k / 128] := DirBlock(ents)], blocks, eof - 1)
         == Dropped(DirEntries(disk, blocks, eof), k, e)
  {
    hide EntriesOf;
    var a := blocks[k / 128];
    assert own[a] == DirTag(i, k / 128);
    var disk' := disk[a := DirBlock(ents)];
    EntriesKept(ents);
    forall m | 0 <= m < eof - 1
      ensures EntryAt(disk', blocks, m) == Dropped(DirEntries(disk, blocks, eof), k, e)[m]
    {
      assert own[blocks[m / 128]] == DirTag(i, m / 128);
    }
  }

  /** The general purpose cache may be put on any block of a directory. */
  lemma LoadOtherBlock(h: HBlock, disk: seq<Block>, ino: seq<INode>, own: seq<Tag>, c: Caches, p: nat, j: nat)
    requires Dirty(h, disk, ino, own, c) && p < |ino| && ino[p].ftype.Dir? && j < |NodeBlocks(ino[p])|
    ensures var a := NodeBlocks(ino[p])[j];
            a < |disk| && Dirty(h, disk, ino, own, c.(xcaddr := a, xcache := disk[a]))
  {
    hide EntriesOf, InodesOf, BytesOf;
    assert Owns(own, p, ino[p]);
  }

  lemma CleanDirty(h: HBlock, disk: seq<Block>, ino: seq<INode>, own: seq<Tag>, c: Caches)
    requires Clean(h, disk, ino, own, c) && BlockAt(disk, 0).HeaderBlock? && c.icindex < |ITab(h)|
    requires ino != [] || c.dcaddr == NO_BLOCK
    ensures Dirty(h, disk, ino, own, c) && h.nextInode == |ino| && (ino != [] ==> BlockAt(disk, 0) == HeaderBlock(h))
    ensures forall k :: 0 <= k < |ino| ==> NodeOnDisk(h, disk, k) == ino[k]
    ensures |c.icache| == 32 && forall i :: 0 <= i < |ino| && i / 32 == c.icindex ==> c.icache[i % 32] == ino[i]
  {
  }

  lemma DirtySlot(h: HBlock, disk: seq<Block>, ino: seq<INode>, own: seq<Tag>, c: Caches, p: nat)
    requires Dirty(h, disk, ino, own, c) && p < |ino| && p / 32 == c.icindex
    ensures |c.icache| == 32 && c.icache[p % 32] == ino[p]
  {
  }

  lemma DirtyClean(h: HBlock, disk: seq<Block>, ino: seq<INode>, own: seq<Tag>, c: Caches)
    requires Dirty(h, disk, ino, own, c) && h.nextInode == |ino| && BlockAt(disk, 0) == HeaderBlock(h)
    requires forall k :: 0 <= k < |ino| ==> NodeOnDisk(h, disk, k) == ino[k]
    ensures Clean(h, disk, ino, own, c)
  {
    hide EntriesOf, InodesOf, BytesOf;
  }

  lemma WipeNode(h: HBlock, disk: seq<Block>, ino: seq<INode>, own: seq<Tag>, c: Caches, x: nat)
    requires Dirty(h, disk, ino, own, c) && x < |ino| && x / 32 == c.icindex && (ino[x].ftype.Dir? ==> ino[x].eof <= 2)
    ensures |c.icache| == 32 && c.icache[x % 32] == ino[x] && NodeBlocks(Wiped(ino[x])) == []
    ensures Dirty(h, disk, ino[x := Wiped(ino[x])], own, c.(icache := c.icache[x % 32 := Wiped(ino[x])]))
    ensures View(disk, ino[x := Wiped(ino[x])]) == View(disk, ino)[x := NodeView(disk, Wiped(ino[x]))]
  {
    hide HeaderOk, XCacheOk, DCacheOk, NodeOnDisk, ITab, FlatFrom, EntriesOf, InodesOf;
    var nd := Wiped(ino[x]);
    FlatEmptyFrom(nd.regStart, nd.regLen, 0);
    SetNode(h, disk, ino, own, c, x, nd);
  }

  /** What a walk over directory p may rely on. */
  lemma DirInHand(h: HBlock, disk: seq<Block>, ino: seq<INode>, own: seq<Tag>, c: Caches, p: nat)
    requires Dirty(h, disk, ino, own, c) && p < |ino| && p / 32 == c.icindex && ino[p].ftype.Dir?
    ensures |c.icache| == 32 && c.icache[p % 32] == ino[p]
    ensures |own| <= |disk| < NO_BLOCK && DCacheOk(disk, own, c.dcaddr, c.dcache)
    ensures NodeOk(ino[p]) && TableShape(ino[p]) && Owns(own, p, ino[p])
    ensures |View(disk, ino)| == |ino|
    ensures Sized(ino[p]) ==>
              View(disk, ino)[p] == DirNode(DirEntries(disk, NodeBlocks(ino[p]), ino[p].eof), |NodeBlocks(ino[p])|)
  {
  }

  lemma OtherDcache(h: HBlock, disk: seq<Block>, ino: seq<INode>, own: seq<Tag>, c: Caches, dcaddr: nat,
                    dcache: seq<DirEntry>)
    requires Dirty(h, disk, ino, own, c) && DCacheOk(disk, own, dcaddr, dcache)
    ensures Dirty(h, disk, ino, own, c.(dcaddr := dcaddr, dcache := dcache))
  {
    hide EntriesOf, InodesOf, BytesOf;
  }

  /** A link that fs2_unlink does not find is out of its reach. */
  lemma OutOfReach(view: seq<Node>, p: nat, x: nat, k: nat)
    requires Unseen(view, p, x) && k < |view[p].entries| && view[p].entries[k].inodeIndex == x
    ensures !InReach(k)
  {
  }

  lemma WipedBlocks(nd: INode)
    ensures NodeBlocks(Wiped(nd)) == []
  {
    FlatEmptyFrom(Wiped(nd).regStart, if |nd.regLen| == 23 then nd.regLen else Zeroes(23), 0);
  }

  /** What can be told before a removal: entry k and the last entry share a block,
      or the general purpose cache is not on the block of the last entry, or
      what it holds of that entry names the right inode. */
  predicate FreshLast(es: seq<DirEntry>, blocks: seq<nat>, k: nat, xcaddr: nat, xcache: Block)
    requires es != []
  {
    var last := |es| - 1;
    || k / 128 == last / 128
    || xcaddr != At(blocks, last / 128)
    || EntriesOf(xcache)[last % 128].inodeIndex == es[last].inodeIndex
  }

  /** The entry moved into the gap names the inode of the last entry exactly if
      the cache was fresh. */
  lemma FreshMoves(es: seq<DirEntry>, blocks: seq<nat>, k: nat, xcaddr: nat, xcache: Block)
    requires k < |es|
    ensures Replacement(es, blocks, k, xcaddr, xcache).inodeIndex == es[|es| - 1].inodeIndex
        <==> FreshLast(es, blocks, k, xcaddr, xcache)
  {
  }

  /** In a directory of one block the cache plays no part. */
  lemma SmallFresh(es: seq<DirEntry>, blocks: seq<nat>, k: nat, xcaddr: nat, xcache: Block)
    requires k < |es| <= 128
    ensures FreshLast(es, blocks, k, xcaddr, xcache) && Replacement(es, blocks, k, xcaddr, xcache) == es[|es| - 1]
  {
    hide EntriesOf;
    assert k / 128 == (|es| - 1) / 128 == 0;
  }

  /** Inode c, a leaf, has been taken out of directory p, or has not been found
      there: the outcome hangs on the index of its entry.  The volume stays a
      valid one, with c gone from the tree, exactly if the cache is fresh;
      otherwise the last file of the directory has lost its entry.  If the
      entry of c is out of reach the file is still listed, but all except the
      last inode of the table have lost their blocks. */
  ghost predicate Removal(view: seq<Node>, view': seq<Node>, ino: seq<INode>, ino': seq<INode>, c: nat, p: nat,
                          xcaddr: nat, xcache: Block, xcaddr': nat, xcache': Block,
                          outcome: Outcome, valid: bool, gone: bool, lost: bool)
    requires c < |view| == |ino| && p < |view| && view[p].DirNode?
  {
    var es, blocks := view[p].entries, NodeBlocks(ino[p]);
    var k := LinkOf(es, c, 0);
    && k < |es| && |view'| == |view| == |ino'|
    && OnlyThese(view, view', c, p)
    && if InReach(k) then
         && outcome == Success && Cleared(view[c], view'[c])
         && GapFilled(view[p], view'[p], ino[p], ino'[p], k, xcaddr, xcache, xcaddr', xcache')
         && (if FreshLast(es, blocks, k, xcaddr, xcache) then valid && gone && !lost else lost)
       else
         && outcome == NoFile && view'[p] == view[p]
         && (c + 1 == |view| ==> valid && view' == view)
         && (c + 1 < |view| ==> NodeBlocks(ino'[c]) == [])
  }

  /** What fs2_rm does to a directory c reached through its own entry ".": a
      directory that is not the last inode loses its blocks and stays where it
      is, and the last one loses the entry ".". */
  ghost predicate SelfRemoval(view: seq<Node>, view': seq<Node>, ino': seq<INode>, c: nat, outcome: Outcome)
    requires c < |view| && view[c].DirNode? && |view[c].entries| == 2
  {
    && |view'| == |view| == |ino'| && OnlyThese(view, view', c, c)
    && (c + 1 < |view| ==> outcome == NoFile && NodeBlocks(ino'[c]) == [])
    && (c + 1 == |view| ==> outcome == Success && view'[c] == DirNode([view[c].entries[1]], view[c].blocks))
  }

  lemma NotRemoved(view: seq<Node>, view': seq<Node>, ino: seq<INode>, ino': seq<INode>, c: nat, p: nat,
                   xcaddr: nat, xcache: Block, xcaddr': nat, xcache': Block, valid: bool, gone: bool, lost: bool)
    requires c < |view| == |ino| && p < |view| && view[p].DirNode? && |view'| == |view| && |ino'| == |ino|
    requires OnlyThese(view, view', c, p) && view'[p] == view[p]
    requires Unseen(view, p, c) && LinkOf(view[p].entries, c, 0) < |view[p].entries|
    requires if c + 1 == |ino| then valid && view' == view else ino'[c] == Wiped(ino[c])
    ensures Removal(view, view', ino, ino', c, p, xcaddr, xcache, xcaddr', xcache', NoFile, valid, gone, lost)
  {
    OutOfReach(view, p, c, LinkOf(view[p].entries, c, 0));
    WipedBlocks(ino[c]);
  }

  /** A removal that fs2_unlink has carried out. */
  lemma FoundIs(view: seq<Node>, view': seq<Node>, ino: seq<INode>, ino': seq<INode>, c: nat, p: nat, k: nat,
                xcaddr: nat, xcache: Block, xcaddr': nat, xcache': Block,
                move: bool, valid: bool, gone: bool, lost: bool)
    requires Dropping(ino, ino', view, view', p, c, k, xcaddr, xcache, xcaddr', xcache', Success, move) && c != p
    requires k < |view[p].entries| && InReach(k) && k == LinkOf(view[p].entries, c, 0)
    requires if FreshLast(view[p].entries, NodeBlocks(ino[p]), k, xcaddr, xcache) then valid && gone && !lost else lost
    ensures Removal(view, view', ino, ino', c, p, xcaddr, xcache, xcaddr', xcache', Success, valid, gone, lost)
  {
    hide SeenLink, GapFilled, FreshLast;
  }

  lemma MissedIs(ino: seq<INode>, ino': seq<INode>, view: seq<Node>, view': seq<Node>, p: nat, x: nat, k: nat,
                 xcaddr: nat, xcache: Block, xcaddr': nat, xcache': Block)
    requires Dropping(ino, ino', view, view', p, x, k, xcaddr, xcache, xcaddr', xcache', NoFile, false)
    ensures ino' == ino && view' == view && ino != []
  {
  }
}
