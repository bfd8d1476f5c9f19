/** What every call of the file system keeps of a volume, whether it succeeds or
    fails and whatever has become of the tree of names: no block has two owners. */
module Fs2Kept {
  import opened Fs2Layout
  import opened Fs2State
  import opened Fs2Update
  import opened Fs2Dirs
  import opened Fs2Tree

  /** How much is kept: the inodes [0, stored) are on the disk, those of
      [0, known) are in use; `solid` says that no region in use is empty. */
  datatype Upkeep = Upkeep(stored: nat, known: nat, solid: bool)

  /** Inode i, as nd has it, lists only blocks allocated to it. */
  ghost predicate NodeKept(own: seq<Tag>, i: nat, nd: INode, solid: bool) {
    NodeShape(nd, solid) && Owns(own, i, nd)
  }

  ghost predicate KeptDisk(h: HBlock, disk: seq<Block>, own: seq<Tag>, icindex: nat, u: Upkeep) {
    forall i :: 0 <= i < u.known && (i < u.stored || i / 32 != icindex) ==>
      NodeKept(own, i, NodeOnDisk(h, disk, i), u.solid)
  }

  ghost predicate KeptCache(h: HBlock, disk: seq<Block>, own: seq<Tag>, icindex: nat, icaddr: nat, icache: seq<INode>,
                            u: Upkeep)
  {
    && |icache| == 32
    && (forall s :: 0 <= s < 32 ==> TableShape(icache[s]))
    && (icindex < |ITab(h)| ==>
          && icaddr == ITab(h)[icindex]
          && forall i :: 0 <= i < u.known && i / 32 == icindex ==>
               && NodeKept(own, i, icache[i % 32], u.solid)
               && (i < u.stored ==> icache[i % 32].ftype == NodeOnDisk(h, disk, i).ftype))
  }

  ghost predicate KeptDirs(disk: seq<Block>, own: seq<Tag>, c: Caches, u: Upkeep) {
    && |c.dcache| == 128 && NamesOk(c.dcache) && (c.dcaddr == 0 ==> NamesNone(c.dcache))
    && (0 < u.known ==> BlockAt(disk, 0).HeaderBlock? && DCacheOk(disk, own, c.dcaddr, c.dcache))
  }

  /** No directory in use, on the disk or cached, lists an inode that is not. */
  predicate ListsInUse(h: HBlock, disk: seq<Block>, icindex: nat, icache: seq<INode>) {
    forall i :: 0 <= i < h.nextInode ==>
      && NamesBelow(disk, NodeOnDisk(h, disk, i), h.nextInode)
      && (i / 32 == icindex && |icache| == 32 ==> NamesBelow(disk, icache[i % 32], h.nextInode))
  }

  /** The same of a volume as a whole. */
  ghost predicate ViewInUse(view: seq<Node>) {
    forall i, k :: 0 <= i < |view| && view[i].DirNode? && 0 <= k < |view[i].entries| ==>
      view[i].entries[k].inodeIndex < |view|
  }

  lemma NamesInView(disk: seq<Block>, ino: seq<INode>, i: nat)
    requires i < |ino|
    ensures NamesBelow(disk, ino[i], |ino|) <==>
            (View(disk, ino)[i].DirNode? ==>
               forall k :: 0 <= k < |View(disk, ino)[i].entries| ==> View(disk, ino)[i].entries[k].inodeIndex < |ino|)
  {
    hide EntryAt, NodeBlocks, Shown;
    var n := View(disk, ino)[i];
    if n.DirNode? {
      assert forall k :: 0 <= k < |n.entries| ==> n.entries[k] == EntryAt(disk, NodeBlocks(ino[i]), k);
    }
  }

  /** Disk and cache of a whole volume hold the table. */
  lemma InodesCached(h: HBlock, disk: seq<Block>, ino: seq<INode>, own: seq<Tag>, live: set<nat>, pos: seq<nat>,
                     icindex: nat, icaddr: nat, icache: seq<INode>)
    requires Consistent(h, disk, ino, own, live, pos) && ICacheOk(h, ino, icindex, icaddr, icache)
    ensures |ino| == h.nextInode && |icache| == 32 && forall i :: 0 <= i < |ino| ==> NodeOnDisk(h, disk, i) == ino[i]
    ensures forall i :: 0 <= i < |ino| && i / 32 == icindex ==> icache[i % 32] == ino[i]
  {
    hide Tree, Owned, Nodes, NodeOnDisk, ITab;
    assert forall i :: 0 <= i < |ino| ==> i / 32 < |ITab(h)|;
  }

  /** What the directories list, when disk and cache hold the table. */
  lemma InUseShows(h: HBlock, disk: seq<Block>, ino: seq<INode>, icindex: nat, icache: seq<INode>)
    requires |ino| == h.nextInode && forall i :: 0 <= i < |ino| ==> NodeOnDisk(h, disk, i) == ino[i]
    requires |icache| == 32 && forall i :: 0 <= i < |ino| && i / 32 == icindex ==> icache[i % 32] == ino[i]
    ensures ListsInUse(h, disk, icindex, icache) <==> ViewInUse(View(disk, ino))
  {
    hide NamesBelow, NodeOnDisk, View, FlatFrom, Flat, OwnsInodes, DCacheOk;
    assert |View(disk, ino)| == |ino|;
    forall i | 0 <= i < |ino|
      ensures NamesBelow(disk, ino[i], |ino|) <==>
              (View(disk, ino)[i].DirNode? ==>
                 forall k :: 0 <= k < |View(disk, ino)[i].entries| ==> View(disk, ino)[i].entries[k].inodeIndex < |ino|)
    {
      NamesInView(disk, ino, i);
    }
  }

  /** The same, when the disk may still hold the table of before. */
  lemma StillListed(h: HBlock, disk0: seq<Block>, disk: seq<Block>, ino: seq<INode>, icindex0: nat, icache0: seq<INode>,
                    icindex: nat, icache: seq<INode>)
    requires |ino| == h.nextInode && ListsInUse(h, disk0, icindex0, icache0) && ViewInUse(View(disk, ino))
    requires disk == disk0 || forall i :: 0 <= i < |ino| ==> NodeOnDisk(h, disk, i) == ino[i]
    requires |icache| == 32 && forall i :: 0 <= i < |ino| && i / 32 == icindex ==> icache[i % 32] == ino[i]
    ensures ListsInUse(h, disk, icindex, icache)
  {
    hide NamesBelow, NodeOnDisk, View;
    assert |View(disk, ino)| == |ino|;
    forall i | 0 <= i < |ino| ensures NamesBelow(disk, ino[i], |ino|) { NamesInView(disk, ino, i); }
  }

  /** A removal that fails makes no directory list more. */
  lemma FailedInUse(ino: seq<INode>, ino': seq<INode>, view: seq<Node>, view': seq<Node>, p: nat, x: nat, k: nat,
                    xcaddr: nat, xcache: Block, xcaddr': nat, xcache': Block, move: bool)
    requires Dropping(ino, ino', view, view', p, x, k, xcaddr, xcache, xcaddr', xcache', NoFile, move)
    requires ViewInUse(view)
    ensures ViewInUse(view')
  {
    hide FlatFrom, Flat, OwnsInodes, DCacheOk;
    forall i | 0 <= i < |view'| ensures Cleared(view[i], view'[i]) || view'[i] == view[i] {
    }
  }

  /** New bytes in one file make no directory list more. */
  lemma WrittenInUse(h: HBlock, disk0: seq<Block>, disk: seq<Block>, ino: seq<INode>, c: Caches, i: nat)
    requires |ino| == h.nextInode && i < |ino| && |c.icache| == 32 && i / 32 == c.icindex
    requires forall m :: 0 <= m < |ino| ==> NodeOnDisk(h, disk, m) == ino[m]
    requires forall m :: 0 <= m < |ino| && m / 32 == c.icindex && m != i ==> c.icache[m % 32] == ino[m]
    requires ino[i].ftype.File? && c.icache[i % 32].ftype.File?
    requires OthersSame(disk0, disk, ino, i) && ViewInUse(View(disk0, ino))
    ensures ListsInUse(h, disk, c.icindex, c.icache)
  {
    hide NodeOnDisk, NodeView, ViewInUse, NamesBelow;
    forall m | 0 <= m < |ino| ensures NamesBelow(disk, ino[m], |ino|) {
      if m == i {
        FileNamesNone(disk, ino[i], |ino|);
      } else {
        assert View(disk, ino)[m] == View(disk0, ino)[m];
        NodeInUse(View(disk0, ino), m);
        NamesInView(disk, ino, m);
      }
    }
    FileNamesNone(disk, c.icache[i % 32], |ino|);
    forall m | 0 <= m < |ino| && m / 32 == c.icindex ensures NamesBelow(disk, c.icache[m % 32], |ino|) {
    }
  }

  lemma NodeInUse(view: seq<Node>, m: nat)
    requires ViewInUse(view) && m < |view|
    ensures view[m].DirNode? ==> forall k :: 0 <= k < |view[m].entries| ==> view[m].entries[k].inodeIndex < |view|
  {
  }

  lemma FileNamesNone(disk: seq<Block>, nd: INode, n: nat)
    requires nd.ftype.File?
    ensures NamesBelow(disk, nd, n)
  {
  }

  /** Loading an inode block brings in nothing else. */
  lemma LoadedInUse(h: HBlock, disk: seq<Block>, icindex: nat, icache: seq<INode>, q: nat)
    requires q < |ITab(h)|
    ensures ListsInUse(h, disk, icindex, icache) ==> ListsInUse(h, disk, q, InodesOf(BlockAt(disk, ITab(h)[q])))
  {
    hide NamesBelow, ITab, InodesOf;
  }

  lemma CachedInUse(h: HBlock, disk: seq<Block>, icindex: nat, icache: seq<INode>, i: nat)
    requires |icache| == 32 && i < h.nextInode && i / 32 == icindex
    ensures ListsInUse(h, disk, icindex, icache) ==> NamesBelow(disk, icache[i % 32], h.nextInode)
  {
    hide NamesBelow, NodeOnDisk;
  }

  /** The ownership of blocks, on the disk and in the caches: these two need not
      agree with each other. */
  ghost predicate Kept(h: HBlock, disk: seq<Block>, own: seq<Tag>, c: Caches, u: Upkeep) {
    && HeaderOk(h, |disk|)
    && |own| == h.nextBlock && own[0] == HeaderTag && OwnsInodes(own, ITab(h))
    && u.stored <= u.known <= u.stored + 1 && u.known <= 32 * |ITab(h)|
    && KeptDisk(h, disk, own, c.icindex, u)
    && KeptCache(h, disk, own, c.icindex, c.icaddr, c.icache, u)
    && KeptDirs(disk, own, c, u)
  }

  // ------------------------------------------------------------- disk writes

  /** A block of a file, or of nobody, may hold anything. */
  lemma KeptPut(h: HBlock, disk: seq<Block>, own: seq<Tag>, c: Caches, u: Upkeep, a: nat, b: Block)
    requires Kept(h, disk, own, c, u) && 0 < a < |disk| && (a < |own| ==> own[a].FileTag?)
    ensures Kept(h, disk[a := b], own, c, u)
  {
    hide NodeKept, HeaderOk, NodeOnDisk, ITab, NamesNone, EntriesOf;
    SameInodes(h, disk, disk[a := b], own, u.known);
  }

  /** Directory blocks are written through their cache. */
  lemma KeptDirPut(h: HBlock, disk: seq<Block>, own: seq<Tag>, c: Caches, u: Upkeep, a: nat, es: seq<DirEntry>)
    requires Kept(h, disk, own, c, u) && 0 < a < |own| && !own[a].InodeTag? && |es| == 128 && NamesOk(es)
    ensures a < |disk| && Kept(h, disk[a := DirBlock(es)], own, c.(dcaddr := a, dcache := es), u)
  {
    hide NodeKept, NodeOnDisk, ITab, NamesNone, EntriesOf;
    SameInodes(h, disk, disk[a := DirBlock(es)], own, u.known);
    EntriesKept(es);
  }

  lemma KeptHeader(h: HBlock, disk: seq<Block>, own: seq<Tag>, c: Caches, u: Upkeep, h': HBlock)
    requires Kept(h, disk, own, c, u)
    ensures 0 < |disk| && Kept(h, disk[0 := HeaderBlock(h')], own, c, u)
  {
    hide NodeKept, EntriesOf, InodesOf, BytesOf;
    SameInodes(h, disk, disk[0 := HeaderBlock(h')], own, u.known);
  }

  /** Saving the cached inodes brings the disk up to them. */
  lemma KeptSave(h: HBlock, disk: seq<Block>, own: seq<Tag>, c: Caches, u: Upkeep)
    requires Kept(h, disk, own, c, u) && c.icindex < |ITab(h)|
    ensures 0 < c.icaddr < |disk|
    ensures Kept(h, disk[c.icaddr := InodeBlock(c.icache)], own, c, u.(stored := u.known))
  {
    hide NodeKept, HeaderOk, NodeOnDisk, ITab, EntriesOf, InodesOf, BytesOf;
    InodesInDisk(h, |disk|, own, c.icindex);
    SavedInodes(h, disk, own, c.icindex, c.icache);
    assert own[c.icaddr] == InodeTag(c.icindex);
  }

  // ---------------------------------------------------------------- allocation

  /** Allocated blocks may be given to anybody. */
  lemma KeptTags(h: HBlock, disk: seq<Block>, own: seq<Tag>, c: Caches, u: Upkeep, more: seq<Tag>)
    requires Kept(h, disk, own, c, u) && h.nextBlock + |more| <= h.nblocks
    ensures Kept(Bump(h, |more|), disk, own + more, c, u)
  {
    hide NodeShape, NodeOnDisk, Owns, EntriesOf, InodesOf, BytesOf;
    var h', own' := Bump(h, |more|), own + more;
    forall i: nat, nd | NodeKept(own, i, nd, u.solid) ensures NodeKept(own', i, nd, u.solid) {
      KeptLater(own, more, i, nd, u.solid);
    }
    forall i | 0 <= i < u.known ensures NodeOnDisk(h', disk, i) == NodeOnDisk(h, disk, i) {
      TableStays(h, h', disk, i);
    }
  }

  /** A new region of inode blocks, when every inode block is full. */
  lemma KeptIregion(h0: HBlock, h: HBlock, disk: seq<Block>, own: seq<Tag>, c: Caches, u: Upkeep)
    requires Kept(h0, disk, own, c, u) && NewIregion(h0, h) && u.stored == u.known == 32 * |ITab(h0)|
    ensures var c' := c.(icindex := |ITab(h0)|, icaddr := h0.nextBlock);
            && 0 < |disk| && c'.icindex < |ITab(h)|
            && Kept(h, disk[0 := HeaderBlock(h)], own + InodeTags(|ITab(h0)|, h0.iregLen), c', u)
  {
    hide NodeShape, HeaderOk, Owns, OwnsInodes, NodeOnDisk, InodesOf, EntriesOf, BytesOf;
    TableGrows(h0, h, disk, own);
    var disk', more := disk[0 := HeaderBlock(h)], InodeTags(|ITab(h0)|, h0.iregLen);
    var own' := own + more;
    forall i: nat, nd | NodeKept(own, i, nd, u.solid) ensures NodeKept(own', i, nd, u.solid) {
      KeptLater(own, more, i, nd, u.solid);
    }
    SameInodes(h0, disk, disk', own, u.known);
    forall i | 0 <= i < u.known ensures NodeOnDisk(h, disk', i) == NodeOnDisk(h0, disk, i) {
      TableStays(h0, h, disk', i);
    }
  }

  lemma KeptLater(own: seq<Tag>, more: seq<Tag>, i: nat, nd: INode, solid: bool)
    requires NodeKept(own, i, nd, solid)
    ensures NodeKept(own + more, i, nd, solid)
  {
    hide NodeShape;
    OwnsLater(own, more, i, nd.ftype, NodeBlocks(nd));
  }

  // -------------------------------------------------------------- cached inodes

  /** Loading an inode block; what the cache held unsaved is lost. */
  lemma KeptLoad(h: HBlock, disk: seq<Block>, own: seq<Tag>, c: Caches, u: Upkeep, q: nat)
    requires Kept(h, disk, own, c, u) && q < |ITab(h)|
    requires u.stored == u.known || c.icindex != u.stored / 32
    ensures 0 < ITab(h)[q] < |disk|
    ensures Kept(h, disk, own, c.(icindex := q, icaddr := ITab(h)[q], icache := InodesOf(disk[ITab(h)[q]])), u)
  {
    hide NodeKept, HeaderOk, EntriesOf, InodesOf, BytesOf, FlatFrom, Flat, OwnsInodes, DCacheOk;
    InodesInDisk(h, |disk|, own, q);
    forall i | 0 <= i < u.known && i / 32 == q
      ensures NodeKept(own, i, NodeOnDisk(h, disk, i), u.solid) || i >= u.stored
      ensures NodeOnDisk(h, disk, i) == InodesOf(disk[ITab(h)[q]])[i % 32]
    {
    }
    assert u.stored < u.known ==> NodeKept(own, u.stored, NodeOnDisk(h, disk, u.stored), u.solid);
  }

  /** A block number beyond the table, after an allocation that failed. */
  lemma KeptBeyond(h: HBlock, disk: seq<Block>, own: seq<Tag>, c: Caches, u: Upkeep, q: nat, a: nat)
    requires Kept(h, disk, own, c, u) && q >= |ITab(h)| && u.stored == u.known
    ensures Kept(h, disk, own, c.(icindex := q, icaddr := a), u)
  {
    hide NodeKept, HeaderOk, FlatFrom, Flat, OwnsInodes, DCacheOk;
  }

  lemma KeptNode(h: HBlock, disk: seq<Block>, own: seq<Tag>, c: Caches, u: Upkeep, i: nat, nd: INode)
    requires Kept(h, disk, own, c, u) && i < u.known && i / 32 == c.icindex < |ITab(h)|
    requires NodeKept(own, i, nd, u.solid) && nd.ftype == c.icache[i % 32].ftype
    ensures Kept(h, disk, own, c.(icache := c.icache[i % 32 := nd]), u)
  {
    hide HeaderOk, NodeOnDisk, Owns, EntriesOf, InodesOf, BytesOf, FlatFrom, Flat, OwnsInodes, DCacheOk;
    forall m | 0 <= m < u.known && m / 32 == i / 32 && m % 32 == i % 32 ensures m == i { }
  }

  /** The next slot of the cached block taken into use. */
  lemma KeptNew(h: HBlock, disk: seq<Block>, own: seq<Tag>, c: Caches, u: Upkeep, nd: INode)
    requires Kept(h, disk, own, c, u) && u.stored == u.known < 32 * |ITab(h)| && u.known / 32 == c.icindex
    requires NodeKept(own, u.known, nd, u.solid) && BlockAt(disk, 0).HeaderBlock?
    requires u.known == 0 ==> DCacheOk(disk, own, c.dcaddr, c.dcache)
    ensures Kept(h, disk, own, c.(icache := c.icache[u.known % 32 := nd]), u.(known := u.known + 1))
  {
    hide HeaderOk, NodeOnDisk, Owns, OwnsInodes, DCacheOk, ITab, FlatFrom, Solid, EntriesOf, InodesOf;
    forall m | 0 <= m < u.known && m / 32 == u.known / 32 ensures m % 32 != u.known % 32 {
      SlotsDiffer(m, u.known);
    }
  }

  /** Scribbling over the next slot without taking it into use. */
  lemma KeptScribble(h: HBlock, disk: seq<Block>, own: seq<Tag>, c: Caches, u: Upkeep, nd: INode)
    requires Kept(h, disk, own, c, u) && u.stored == u.known && u.known / 32 == c.icindex && TableShape(nd)
    ensures Kept(h, disk, own, c.(icache := c.icache[u.known % 32 := nd]), u)
  {
    hide HeaderOk, NodeOnDisk, NodeKept, EntriesOf, InodesOf, BytesOf;
    forall m | 0 <= m < u.known && m / 32 == u.known / 32 ensures m % 32 != u.known % 32 {
      SlotsDiffer(m, u.known);
    }
  }

  /** The cached copy of inode i. */
  lemma KeptInode(h: HBlock, disk: seq<Block>, own: seq<Tag>, c: Caches, u: Upkeep, i: nat)
    requires Kept(h, disk, own, c, u) && i < u.known && i / 32 == c.icindex
    ensures |c.icache| == 32 && i / 32 < |ITab(h)| && TableShape(c.icache[i % 32])
    ensures NodeKept(own, i, c.icache[i % 32], u.solid)
    ensures i < u.stored ==> c.icache[i % 32].ftype == NodeOnDisk(h, disk, i).ftype
    ensures 0 < |own| == h.nextBlock <= h.nblocks <= |disk| < NO_BLOCK && 1 <= h.dregLen < 256 && 1 <= h.fregLen < 256
  {
    hide NodeOnDisk;
  }

  // ------------------------------------------------------------ the other caches

  lemma KeptOther(h: HBlock, disk: seq<Block>, own: seq<Tag>, c: Caches, u: Upkeep, a: nat, b: Block)
    requires Kept(h, disk, own, c, u)
    ensures Kept(h, disk, own, c.(xcaddr := a, xcache := b), u)
  {
    hide NodeOnDisk, NodeKept;
  }

  // --------------------------------------------------------------------- inodes

  lemma WipedKept(own: seq<Tag>, i: nat, nd: INode, solid: bool)
    requires NodeKept(own, i, nd, solid) && (nd.ftype.Dir? ==> nd.eof <= 2)
    ensures NodeKept(own, i, Wiped(nd), solid) && NodeBlocks(Wiped(nd)) == []
  {
    WipedBlocks(nd);
  }

  lemma GrownKept(own: seq<Tag>, i: nat, nd: INode, s: nat, n: nat, solid: bool)
    requires NodeKept(own, i, nd, solid) && s < 23 && FirstFree(nd.regStart, s) && 0 < |own|
    requires solid || nd.ftype.Dir? ==> 0 < n
    ensures var nd' := WithRegion(nd, s, |own|, n);
            && NodeBlocks(nd') == NodeBlocks(nd) + Run(|own|, n)
            && NodeKept(own + Tags(nd.ftype, i, |NodeBlocks(nd)|, n), i, nd', solid)
  {
    hide OwnsBlocks;
    FlatAppend(nd.regStart, nd.regLen, s, 0, |own|, n);
    ZeroTailAppend(nd.regStart, s, |own|);
    OwnsGrown(own, i, nd.ftype, NodeBlocks(nd), n);
  }

  /** A cached inode gets the next n blocks, and the header is saved. */
  lemma KeptGrow(h: HBlock, disk: seq<Block>, own: seq<Tag>, c: Caches, u: Upkeep, i: nat, s: nat, n: nat, save: bool)
    requires Kept(h, disk, own, c, u) && i < u.known && i / 32 == c.icindex && |c.icache| == 32
    requires TableShape(c.icache[i % 32]) && s < 23 && FirstFree(c.icache[i % 32].regStart, s)
    requires h.nextBlock + n <= h.nblocks && (u.solid || c.icache[i % 32].ftype.Dir? ==> 0 < n)
    ensures var nd := c.icache[i % 32];
            var nd', h' := WithRegion(nd, s, h.nextBlock, n), Bump(h, n);
            var own' := own + Tags(nd.ftype, i, |NodeBlocks(nd)|, n);
            && 0 < |disk| && NodeBlocks(nd') == NodeBlocks(nd) + Run(h.nextBlock, n)
            && Kept(h', if save then disk[0 := HeaderBlock(h')] else disk, own',
                    c.(icache := c.icache[i % 32 := nd']), u)
            && NodeKept(own', i, nd', u.solid) && |own'| == h.nextBlock + n
  {
    hide NodeKept, NodeShape, Kept, FirstFree;
    var nd := c.icache[i % 32];
    var nd', h' := WithRegion(nd, s, h.nextBlock, n), Bump(h, n);
    var more := Tags(nd.ftype, i, |NodeBlocks(nd)|, n);
    KeptInode(h, disk, own, c, u, i);
    GrownKept(own, i, nd, s, n, u.solid);
    KeptTags(h, disk, own, c, u, more);
    KeptNode(h', disk, own + more, c, u, i, nd');
    if save { KeptHeader(h', disk, own + more, c.(icache := c.icache[i % 32 := nd']), u, h'); }
  }

  lemma GrownInode(h0: HBlock, disk0: seq<Block>, own: seq<Tag>, c: Caches, u: Upkeep, i: nat,
                   h: HBlock, disk: seq<Block>, icache: seq<INode>, s: nat, rsz: nat)
    requires Kept(h0, disk0, own, c, u) && i < u.known && i / 32 == c.icindex && |c.icache| == 32
    requires TableShape(c.icache[i % 32]) && c.icache[i % 32].ftype.File? && (u.solid ==> 0 < rsz)
    requires Grown(h0, disk0, c.icache, h, disk, icache, i % 32, s, rsz)
    ensures var own' := own + Tags(File, i, |NodeBlocks(c.icache[i % 32])|, rsz);
            && Kept(h, disk, own', c.(icache := icache), u) && TableShape(icache[i % 32]) && icache[i % 32].ftype.File?
            && h.nextInode == h0.nextInode && BlockAt(disk, 0) == HeaderBlock(h) && ITab(h) == ITab(h0)
            && h.fregLen == h0.fregLen && (h0.nextBlock < |own'| ==> own'[h0.nextBlock].FileTag?)
  {
    hide Kept, NodeKept;
    KeptInode(h0, disk0, own, c, u, i);
    KeptGrow(h0, disk0, own, c, u, i, s, rsz, true);
  }

  /** Block `blkind` of a cached file, if there is one, is the file's. */
  lemma FileBlockKept(own: seq<Tag>, i: nat, nd: INode, solid: bool, blkind: nat)
    requires NodeKept(own, i, nd, solid) && nd.ftype.File?
    ensures NodeBlocks(nd) == Flat(nd.regStart, nd.regLen)
    ensures blkind < |NodeBlocks(nd)| ==> 0 < NodeBlocks(nd)[blkind] < |own| && own[NodeBlocks(nd)[blkind]].FileTag?
  {
    hide Flat, ZeroTail, Solid, DirFits;
    if blkind < |NodeBlocks(nd)| { assert own[NodeBlocks(nd)[blkind]] == FileTag(i, blkind); }
  }

  /** Storing data in a block that no directory and no inodes lie in. */
  lemma KeptData(h: HBlock, disk: seq<Block>, own: seq<Tag>, c: Caches, u: Upkeep, a: nat, bytes: seq<Byte>)
    requires Kept(h, disk, own, c, u) && 0 < a && (a < |own| ==> own[a].FileTag?)
    ensures Kept(h, disk, own, c.(xcaddr := a, xcache := DataBlock(bytes)), u)
    ensures a < |disk| ==> Kept(h, disk[a := DataBlock(bytes)], own, c.(xcaddr := a, xcache := DataBlock(bytes)), u)
  {
    hide Kept;
    KeptOther(h, disk, own, c, u, a, DataBlock(bytes));
    if a < |disk| { KeptPut(h, disk, own, c.(xcaddr := a, xcache := DataBlock(bytes)), u, a, DataBlock(bytes)); }
  }

  /** Recording a new end of file and saving the inode. */
  lemma KeptFinish(h: HBlock, disk: seq<Block>, own: seq<Tag>, c: Caches, u: Upkeep, i: nat, eof: nat)
    requires Kept(h, disk, own, c, u) && i < u.known == u.stored && i / 32 == c.icindex && |c.icache| == 32
    requires c.icache[i % 32].ftype.File?
    ensures var icache' := c.icache[i % 32 := c.icache[i % 32].(eof := eof)];
            && 0 < c.icaddr < |disk|
            && Kept(h, disk[c.icaddr := InodeBlock(icache')], own, c.(icache := icache'), u)
  {
    hide Kept, NodeKept;
    KeptInode(h, disk, own, c, u, i);
    ResizedKept(own, i, c.icache[i % 32], eof, u.solid);
    var nd := c.icache[i % 32].(eof := eof);
    KeptNode(h, disk, own, c, u, i, nd);
    KeptSave(h, disk, own, c.(icache := c.icache[i % 32 := nd]), u);
  }

  /** A volume with a region of no blocks is kept no less. */
  lemma KeptLoose(h: HBlock, disk: seq<Block>, own: seq<Tag>, c: Caches, u: Upkeep)
    requires Kept(h, disk, own, c, u)
    ensures Kept(h, disk, own, c, u.(solid := false))
  {
    hide NodeOnDisk, HeaderOk, Owns, FlatFrom, Flat, OwnsInodes, DCacheOk;
    assert forall i: nat, nd :: NodeKept(own, i, nd, u.solid) ==> NodeKept(own, i, nd, false);
  }

  /** A new end of file; for a directory it must lie within the blocks. */
  lemma ResizedKept(own: seq<Tag>, i: nat, nd: INode, eof: nat, solid: bool)
    requires NodeKept(own, i, nd, solid)
    requires nd.ftype.File? || eof <= nd.eof || eof <= 128 * |NodeBlocks(nd)|
    ensures NodeKept(own, i, nd.(eof := eof), solid) && NodeBlocks(nd.(eof := eof)) == NodeBlocks(nd)
  {
    hide NodeShape;
    SameTable(nd, nd.(eof := eof), solid);
  }

  /** A volume that is whole is kept. */
  lemma CleanKept(h: HBlock, disk: seq<Block>, ino: seq<INode>, own: seq<Tag>, c: Caches, u: Upkeep)
    requires Clean(h, disk, ino, own, c) && u.stored == u.known == |ino| && (u.solid ==> AllSolid(ino))
    requires ino == [] && c.dcaddr == 0 ==> NamesNone(c.dcache)
    ensures Kept(h, disk, own, c, u)
  {
    hide NodeOnDisk, HeaderOk, Solid;
  }

  // ---------------------------------------------------------------- directories

  lemma KeptTable(h: HBlock, disk: seq<Block>, own: seq<Tag>, c: Caches, u: Upkeep, i: nat)
    requires Kept(h, disk, own, c, u) && i < u.known
    ensures HeaderOk(h, |disk|) && i / 32 < |ITab(h)|
  {
    hide KeptDisk, KeptCache, KeptDirs;
  }

  /** Where the walk over a directory stands, and where its next step leads. */
  lemma DirWalk(own: seq<Tag>, d: nat, nd: INode, solid: bool, b: nat, i: nat, j: nat)
    requires NodeKept(own, d, nd, solid) && nd.ftype.Dir? && WalkAt(nd.regStart, nd.regLen, b, i, j)
    requires b < |NodeBlocks(nd)| || (b == 0 && nd.regStart[0] == 0)
    ensures |nd.regStart| == |nd.regLen| == 23 && i < 23 && j < nd.regLen[i]
    ensures var a := At(NodeBlocks(nd), b);
            && nd.regStart[i] + j == a
            && if b < |NodeBlocks(nd)| then 0 < a < |own| && own[a] == DirTag(d, b) else a == 0
    ensures var i', j' := if j + 1 == nd.regLen[i] then i + 1 else i, if j + 1 == nd.regLen[i] then 0 else j + 1;
            && (b < |NodeBlocks(nd)| ==> WalkAt(nd.regStart, nd.regLen, b + 1, i', j'))
            && ((i' == 23 || nd.regStart[i'] == 0) <==> b + 1 >= |NodeBlocks(nd)|)
  {
    if b < |NodeBlocks(nd)| {
      WalkStep(nd.regStart, nd.regLen, b, i, j);
    } else {
      FlatEmptyFrom(nd.regStart, nd.regLen, 0);
    }
  }

  /** Loading a directory block, or block 0, into the directory cache. */
  lemma KeptDirLoad(h: HBlock, disk: seq<Block>, own: seq<Tag>, c: Caches, u: Upkeep, a: nat)
    requires Kept(h, disk, own, c, u) && (a == 0 || (a < |own| && own[a].DirTag?)) && BlockAt(disk, 0) == HeaderBlock(h)
    requires 0 < u.known
    ensures a < |disk| && Kept(h, disk, own, c.(dcaddr := a, dcache := EntriesOf(disk[a])), u)
    ensures |own| <= |disk| < NO_BLOCK
    ensures a != 0 && a == c.dcaddr ==> c.dcache == EntriesOf(disk[a])
  {
    hide KeptDisk, KeptCache, EntriesOf, NamesNone;
    if a == 0 { HeaderNames(h); }
  }

  lemma ScanStart(disk: seq<Block>, own: seq<Tag>, d: nat, nd: INode, solid: bool)
    requires NodeKept(own, d, nd, solid) && nd.ftype.Dir?
    ensures |nd.regStart| == |nd.regLen| == 23 && WalkAt(nd.regStart, nd.regLen, 0, 0, 0)
    ensures nd.eof <= 128 * |NodeBlocks(nd)| || (nd.eof <= 2 && nd.regStart[0] == 0)
    ensures Sized(nd) ==> nd.eof <= 128 * |NodeBlocks(nd)|
    ensures nd.regStart[0] == 0 ==> NodeBlocks(nd) == []
    ensures Sized(nd) ==> NodeView(disk, nd) == DirNode(DirEntries(disk, NodeBlocks(nd), nd.eof), |NodeBlocks(nd)|)
  {
    hide OwnsBlocks;
  }

  /** What a directory block loaded, or already cached, may hold. */
  lemma KeptEntries(h: HBlock, disk: seq<Block>, own: seq<Tag>, c: Caches, u: Upkeep, a: nat)
    requires Kept(h, disk, own, c, u) && a < |own|
    ensures a < |disk| && |c.dcache| == 128 && NamesOk(c.dcache)
  {
    hide KeptDisk, KeptCache;
  }

  /** Changing a directory block and the number of entries of inode p. */
  lemma KeptEntry(h: HBlock, disk: seq<Block>, own: seq<Tag>, c: Caches, u: Upkeep, p: nat, a: nat, ents: seq<DirEntry>,
                  eof: nat)
    requires Kept(h, disk, own, c, u) && p < u.known && p / 32 == c.icindex && |c.icache| == 32
    requires 0 < a < |own| && !own[a].InodeTag? && |ents| == 128 && NamesOk(ents)
    requires var nd := c.icache[p % 32];
             nd.ftype.Dir? ==> eof <= nd.eof || eof <= 128 * |NodeBlocks(nd)|
    ensures a < |disk|
    ensures Kept(h, disk[a := DirBlock(ents)], own,
                 c.(dcaddr := a, dcache := ents, icache := c.icache[p % 32 := c.icache[p % 32].(eof := eof)]), u)
  {
    hide Kept, NodeKept, NodeBlocks;
    var nd := c.icache[p % 32];
    KeptInode(h, disk, own, c, u, p);
    KeptDirPut(h, disk, own, c, u, a, ents);
    ResizedKept(own, p, nd, eof, u.solid);
    KeptNode(h, disk[a := DirBlock(ents)], own, c.(dcaddr := a, dcache := ents), u, p, nd.(eof := eof));
  }

  /** Where the next entry of a cached inode goes. */
  lemma EntryPlace(own: seq<Tag>, p: nat, nd: INode, solid: bool)
    requires NodeKept(own, p, nd, solid)
    ensures TableShape(nd) && ZeroTail(nd.regStart)
    ensures nd.eof < 128 * |NodeBlocks(nd)| ==>
              var a := NodeBlocks(nd)[nd.eof / 128];
              0 < a < |own| && !own[a].InodeTag?
    ensures nd.ftype.Dir? ==> nd.eof <= 128 * |NodeBlocks(nd)| || nd.eof <= 2
  {
    hide NodeBlocks, Solid;
    if nd.eof < 128 * |NodeBlocks(nd)| { assert own[NodeBlocks(nd)[nd.eof / 128]] == TagOf(nd.ftype, p, nd.eof / 128); }
  }

  // ------------------------------------------------------------------- creation

  /** What looking for the next inode's block finds. */
  lemma NextKept(h: HBlock, disk: seq<Block>, own: seq<Tag>, c: Caches, u: Upkeep)
    requires Kept(h, disk, own, c, u) && u.stored == u.known
    ensures HeaderOk(h, |disk|) && 0 < |disk|
    ensures var q := u.known / 32;
            if q < |ITab(h)|
            then && 0 < ITab(h)[q] < |disk| && u.known < 32 * |ITab(h)|
                 && Kept(h, disk, own, c.(icindex := q, icaddr := ITab(h)[q], icache := InodesOf(disk[ITab(h)[q]])), u)
            else && u.known == 32 * |ITab(h)| && q == |ITab(h)|
                 && Kept(h, disk, own, c.(icindex := q, icaddr := 0), u)
  {
    hide KeptDisk, KeptCache, KeptDirs;
    var q := u.known / 32;
    if q < |ITab(h)| { KeptLoad(h, disk, own, c, u, q); } else { KeptBeyond(h, disk, own, c, u, q, 0); }
  }

  /** A new directory of n blocks in the next slot of the cached inode block. */
  lemma KeptNewDir(h: HBlock, disk: seq<Block>, own: seq<Tag>, c: Caches, u: Upkeep, nd: INode, n: nat,
                   ents: seq<DirEntry>)
    requires Kept(h, disk, own, c, u) && u.stored == u.known < 32 * |ITab(h)| && u.known / 32 == c.icindex
    requires BlockAt(disk, 0).HeaderBlock? && 1 <= n && h.nextBlock + n <= h.nblocks
    requires NodeShape(nd, true) && nd.ftype.Dir? && NodeBlocks(nd) == Run(h.nextBlock, n)
    requires |ents| == 128 && NamesOk(ents)
    ensures h.nextBlock < |disk|
    ensures var u' := u.(known := u.known + 1);
            Kept(Bump(h, n), disk[h.nextBlock := DirBlock(ents)], own + Tags(Dir, u.known, 0, n),
                 c.(icache := c.icache[u.known % 32 := nd], dcaddr := h.nextBlock, dcache := ents), u')
  {
    hide Kept, NodeBlocks, NodeShape, EntriesOf, InodesOf, BytesOf;
    var own', u', h' := own + Tags(Dir, u.known, 0, n), u.(known := u.known + 1), Bump(h, n);
    KeptRoom(h, disk, own, c, u);
    var c', disk' := c.(dcaddr := h.nextBlock, dcache := ents), disk[h.nextBlock := DirBlock(ents)];
    KeptTags(h, disk, own, c, u, Tags(Dir, u.known, 0, n));
    assert NodeShape(nd, u.solid) by { Loosened(nd, u.solid); }
    assert ITab(h') == ITab(h);
    KeptDirPut(h', disk, own', c, u, h.nextBlock, ents);
    assert DCacheOk(disk', own', h.nextBlock, ents) by { EntriesKept(ents); }
    KeptNew(h', disk', own', c', u, nd);
  }

  lemma KeptThere(h: HBlock, disk: seq<Block>, own: seq<Tag>, c: Caches, u: Upkeep)
    requires Kept(h, disk, own, c, u) && 0 < u.known
    ensures BlockAt(disk, 0).HeaderBlock?
  {
    hide KeptDisk, KeptCache, HeaderOk;
  }

  lemma Loosened(nd: INode, solid: bool)
    requires NodeShape(nd, true)
    ensures NodeShape(nd, solid)
  {
  }

  lemma KeptRoom(h: HBlock, disk: seq<Block>, own: seq<Tag>, c: Caches, u: Upkeep)
    requires Kept(h, disk, own, c, u)
    ensures 0 < |own| == h.nextBlock <= h.nblocks <= |disk| && 1 <= h.dregLen && |c.icache| == 32
    ensures |c.dcache| == 128 && NamesOk(c.dcache) && forall s :: 0 <= s < 32 ==> TableShape(c.icache[s])
  {
    hide KeptDisk;
  }

  /** A new file, which has no blocks yet. */
  lemma KeptNewFile(h: HBlock, disk: seq<Block>, own: seq<Tag>, c: Caches, u: Upkeep, nd: INode)
    requires Kept(h, disk, own, c, u) && u.stored == u.known < 32 * |ITab(h)| && u.known / 32 == c.icindex
    requires BlockAt(disk, 0).HeaderBlock? && NodeShape(nd, true) && NodeBlocks(nd) == [] && 0 < u.known
    ensures Kept(h, disk, own, c.(icache := c.icache[u.known % 32 := nd]), u.(known := u.known + 1))
  {
    hide Kept, NodeBlocks, NodeShape;
    Loosened(nd, u.solid);
    KeptNew(h, disk, own, c, u, nd);
  }

  /** An inode of another block is on the disk as it was. */
  lemma SameOther(h: HBlock, disk: seq<Block>, own: seq<Tag>, c: Caches, u: Upkeep, p: nat)
    requires Kept(h, disk, own, c, u) && c.icindex < |ITab(h)| && p < u.known && p / 32 != c.icindex
    ensures c.icaddr < |disk|
    ensures NodeOnDisk(h, disk[c.icaddr := InodeBlock(c.icache)], p) == NodeOnDisk(h, disk, p)
  {
    hide KeptDisk, KeptDirs, NodeKept;
    assert own[c.icaddr] == InodeTag(c.icindex) && own[ITab(h)[p / 32]] == InodeTag(p / 32);
  }

  /** Saving the cached inodes and loading block q, with an inode in creation. */
  lemma KeptSwitch(h: HBlock, disk: seq<Block>, own: seq<Tag>, c: Caches, u: Upkeep, q: nat)
    requires Kept(h, disk, own, c, u) && c.icindex < |ITab(h)| && q < |ITab(h)|
    requires u.stored <= u.known <= u.stored + 1
    ensures c.icaddr < |disk| && ITab(h)[q] < |disk|
    ensures var disk' := disk[c.icaddr := InodeBlock(c.icache)];
            Kept(h, disk', own, c.(icindex := q, icaddr := ITab(h)[q], icache := InodesOf(disk'[ITab(h)[q]])), u)
  {
    hide Kept;
    KeptSave(h, disk, own, c, u);
    var disk', u' := disk[c.icaddr := InodeBlock(c.icache)], u.(stored := u.known);
    KeptLoad(h, disk', own, c, u', q);
    KeptLower(h, disk', own, c.(icindex := q, icaddr := ITab(h)[q], icache := InodesOf(disk'[ITab(h)[q]])), u', u);
  }

  lemma KeptParent(h: HBlock, disk: seq<Block>, own: seq<Tag>, c: Caches, u: Upkeep, p: nat)
    requires Kept(h, disk, own, c, u) && c.icindex < |ITab(h)| && p < u.known == u.stored && p / 32 != c.icindex
    requires p / 32 < |ITab(h)|
    ensures 0 < c.icaddr < |disk| && ITab(h)[p / 32] < |disk|
    ensures var disk' := disk[c.icaddr := InodeBlock(c.icache)];
            && Kept(h, disk', own, c.(icindex := p / 32, icaddr := ITab(h)[p / 32],
                                      icache := InodesOf(disk'[ITab(h)[p / 32]])), u)
            && NodeOnDisk(h, disk', p) == NodeOnDisk(h, disk, p)
  {
    hide Kept, NodeOnDisk;
    KeptSave(h, disk, own, c, u);
    KeptSwitch(h, disk, own, c, u, p / 32);
    SameOther(h, disk, own, c, u, p);
  }

  lemma KeptLower(h: HBlock, disk: seq<Block>, own: seq<Tag>, c: Caches, u: Upkeep, u': Upkeep)
    requires Kept(h, disk, own, c, u) && u' == u.(stored := u'.stored) && u'.stored <= u.stored <= u'.stored + 1
    requires u.known <= u'.stored + 1
    ensures Kept(h, disk, own, c, u')
  {
    hide NodeKept, HeaderOk, NodeOnDisk, FlatFrom, Flat, OwnsInodes, DCacheOk;
  }

  /** Saving the cached inodes, and the header with one more inode. */
  lemma KeptCommit(h: HBlock, disk: seq<Block>, own: seq<Tag>, c: Caches, u: Upkeep)
    requires Kept(h, disk, own, c, u) && c.icindex < |ITab(h)|
    ensures 0 < c.icaddr < |disk|
    ensures var h' := h.(nextInode := h.nextInode + 1);
            Kept(h', disk[c.icaddr := InodeBlock(c.icache)][0 := HeaderBlock(h')], own, c, u.(stored := u.known))
  {
    hide Kept;
    KeptSave(h, disk, own, c, u);
    var disk', u' := disk[c.icaddr := InodeBlock(c.icache)], u.(stored := u.known);
    var h' := h.(nextInode := h.nextInode + 1);
    KeptHeader(h, disk', own, c, u', h');
    KeptCount(h, disk'[0 := HeaderBlock(h')], own, c, u', h.nextInode + 1);
  }

  lemma KeptCount(h: HBlock, disk: seq<Block>, own: seq<Tag>, c: Caches, u: Upkeep, n: nat)
    requires Kept(h, disk, own, c, u)
    ensures Kept(h.(nextInode := n), disk, own, c, u)
  {
    hide NodeKept, EntriesOf, InodesOf, BytesOf, FlatFrom, Flat, OwnsInodes, DCacheOk;
    assert forall i :: 0 <= i < u.known ==> NodeOnDisk(h.(nextInode := n), disk, i) == NodeOnDisk(h, disk, i);
  }

  /** A new directory with "." and "..", in a volume that is kept and, if
      `ready`, whole. */
  lemma FilledDir(h: HBlock, disk: seq<Block>, ino: seq<INode>, own: seq<Tag>, c: Caches, u: Upkeep, nd: INode,
                  parent: nat, ents: seq<DirEntry>, ready: bool)
    requires Kept(h, disk, own, c, u) && u.stored == u.known < 32 * |ITab(h)| && u.known / 32 == c.icindex
    requires BlockAt(disk, 0).HeaderBlock? && h.nextBlock + h.dregLen <= h.nblocks && ents == c.dcache
    requires NodeShape(nd, true) && nd.ftype.Dir? && nd.eof == 2 && NodeBlocks(nd) == Run(h.nextBlock, h.dregLen)
    requires nd.iparent == parent
    requires ready ==> Clean(h, disk, ino, own, c) && u.known == |ino|
    ensures h.nextBlock < |disk| && |ents| == 128 && NamesOk(ents)
    ensures var i, dots := u.known, DotBlock(ents, u.known, parent);
            var disk', own' := disk[h.nextBlock := DirBlock(dots)], own + Tags(Dir, i, 0, h.dregLen);
            var c' := c.(icache := c.icache[i % 32 := nd], dcaddr := h.nextBlock, dcache := dots);
            && Kept(Bump(h, h.dregLen), disk', own', c', u.(known := i + 1))
            && (ready ==>
                  && Dirty(Bump(h, h.dregLen), disk', ino + [nd], own', c')
                  && NodeAdded(ino, ino + [nd], View(disk, ino), View(disk', ino + [nd]), Dir, parent, h.dregLen,
                               h.nextBlock))
  {
    hide Kept, NodeShape, NodeBlocks, View, NewView, DotBlock, Sized, Clean, Dirty;
    KeptRoom(h, disk, own, c, u);
    KeptNewDir(h, disk, own, c, u, nd, h.dregLen, DotBlock(ents, u.known, parent));
    Loosened(nd, false);
    if ready { FreshDir(h, disk, ino, own, c, h.dregLen, nd, parent, ents); }
  }

  lemma FirstLength(start: seq<nat>, len: seq<nat>)
    requires 0 < |start| == |len|
    ensures start[0] != 0 ==> len[0] <= |Flat(start, len)|
  {
  }

  /** An inode without blocks and without empty regions has no region. */
  lemma NoRegions(nd: INode)
    requires NodeShape(nd, true) && NodeBlocks(nd) == []
    ensures FreeSlot(nd)
  {
    FirstLength(nd.regStart, nd.regLen);
  }

  lemma FilledFile(h: HBlock, disk: seq<Block>, ino: seq<INode>, own: seq<Tag>, c: Caches, u: Upkeep, nd: INode,
                   parent: nat, ready: bool)
    requires Kept(h, disk, own, c, u) && u.stored == u.known < 32 * |ITab(h)| && u.known / 32 == c.icindex
    requires BlockAt(disk, 0).HeaderBlock? && NodeShape(nd, true) && nd.ftype.File? && nd.eof == 0
    requires NodeBlocks(nd) == [] && nd.iparent == parent && 0 < u.known
    requires ready ==> Clean(h, disk, ino, own, c) && u.known == |ino|
    ensures |c.icache| == 32
    ensures var i, c' := u.known, c.(icache := c.icache[u.known % 32 := nd]);
            && Kept(h, disk, own, c', u.(known := i + 1))
            && (ready ==>
                  && Dirty(h, disk, ino + [nd], own, c')
                  && NodeAdded(ino, ino + [nd], View(disk, ino), View(disk, ino + [nd]), File, parent, h.dregLen,
                               h.nextBlock))
  {
    hide Kept, NodeShape, NodeBlocks, View, NewView, Sized, Clean, Dirty;
    KeptRoom(h, disk, own, c, u);
    KeptNewFile(h, disk, own, c, u, nd);
    Loosened(nd, false);
    NoRegions(nd);
    if ready { FreshFile(h, disk, ino, own, c, nd, parent, h.dregLen); }
  }

  // -------------------------------------------------------------------- removal

  /** Block `b` of a kept directory that has not been wiped. */
  lemma DirBlockKept(own: seq<Tag>, p: nat, nd: INode, solid: bool, k: nat)
    requires NodeKept(own, p, nd, solid) && nd.ftype.Dir? && nd.regStart[0] != 0 && k < nd.eof
    ensures TableShape(nd) && NodeBlocks(nd) == Flat(nd.regStart, nd.regLen)
    ensures nd.eof <= 128 * |NodeBlocks(nd)| && k / 128 < |NodeBlocks(nd)|
    ensures 0 < NodeBlocks(nd)[k / 128] < |own| && !own[NodeBlocks(nd)[k / 128]].InodeTag?
  {
    hide Flat, Solid;
    assert own[NodeBlocks(nd)[k / 128]] == DirTag(p, k / 128);
  }

  lemma KeptWipe(h: HBlock, disk: seq<Block>, own: seq<Tag>, c: Caches, u: Upkeep, x: nat)
    requires Kept(h, disk, own, c, u) && x < u.known && x / 32 == c.icindex && |c.icache| == 32
    requires c.icache[x % 32].ftype.Dir? ==> c.icache[x % 32].eof <= 2
    ensures Kept(h, disk, own, c.(icache := c.icache[x % 32 := Wiped(c.icache[x % 32])]), u)
  {
    hide Kept, NodeKept;
    KeptInode(h, disk, own, c, u, x);
    WipedKept(own, x, c.icache[x % 32], u.solid);
    KeptNode(h, disk, own, c, u, x, Wiped(c.icache[x % 32]));
  }

  // ------------------------------------------------------------------- mounting

  /** What is kept does not hang on the caches: it is kept when the volume is
      mounted again. */
  lemma KeptMount(h: HBlock, disk: seq<Block>, own: seq<Tag>, c: Caches, u: Upkeep)
    requires Kept(h, disk, own, c, u) && u.stored == u.known
    ensures Kept(h, disk, own, c.(icindex := NO_BLOCK, dcaddr := NO_BLOCK, xcaddr := NO_BLOCK), u)
  {
    hide NodeKept, NodeOnDisk;
    TableFits(h, |disk|, own);
  }

  /** What is kept of a consistent disk shows in its inodes and entries. */
  lemma KeptFlags(h: HBlock, disk: seq<Block>, ino: seq<INode>, own: seq<Tag>, live: set<nat>, pos: seq<nat>, c: Caches,
                  u: Upkeep)
    requires Kept(h, disk, own, c, u) && u.stored == u.known == h.nextInode && 1 <= u.known
    requires Consistent(h, disk, ino, own, live, pos)
    ensures u.solid ==> AllSolid(ino)
  {
    hide NodeOnDisk, NodeShape, Tree, Owned, Nodes, EntriesOf, InodesOf, BytesOf, FlatFrom, Flat, OwnsInodes, DCacheOk;
    if u.solid {
      forall i | 0 <= i < |ino| ensures NodeShape(ino[i], true) {
        assert NodeKept(own, i, NodeOnDisk(h, disk, i), u.solid);
      }
    }
  }

  /** A consistent disk, with nothing cached yet. */
  lemma MountKept(h: HBlock, disk: seq<Block>, ino: seq<INode>, own: seq<Tag>, live: set<nat>, pos: seq<nat>, c: Caches,
                  u: Upkeep)
    requires Consistent(h, disk, ino, own, live, pos) && c.icindex == c.dcaddr == c.xcaddr == NO_BLOCK
    requires |c.icache| == 32 && (forall s :: 0 <= s < 32 ==> TableShape(c.icache[s]))
    requires |c.dcache| == 128 && NamesOk(c.dcache) && u.stored == u.known == h.nextInode && (u.solid ==> AllSolid(ino))
    ensures ICacheOk(h, ino, c.icindex, c.icaddr, c.icache)
    ensures DCacheOk(disk, own, c.dcaddr, c.dcache) && XCacheOk(disk, own, c.xcaddr, c.xcache)
    ensures Kept(h, disk, own, c, u) && 1 <= h.nextInode && BlockAt(disk, 0) == HeaderBlock(h)
  {
    hide Tree, Nodes, Owns, OwnsInodes, NodeOnDisk, Kept;
    TableFits(h, |disk|, own);
    RootLive(h, disk, ino, own, live, pos);
    CleanKept(h, disk, ino, own, c, u);
  }

  // ----------------------------------------------------------- what kept comes to

  /** Block a is the j-th block of inode i. */
  predicate Lists(tab: seq<INode>, i: nat, j: nat, a: nat) {
    i < |tab| && j < |NodeBlocks(tab[i])| && NodeBlocks(tab[i])[j] == a
  }

  /** No block is listed twice by these inodes and the header's inode table, and
      every listed block is an allocated one other than the header's. */
  ghost predicate NoSharing(h: HBlock, tab: seq<INode>) {
    && (forall i: nat, j: nat, a: nat :: Lists(tab, i, j, a) ==> 0 < a < h.nextBlock <= h.nblocks && a !in ITab(h))
    && (forall i: nat, j: nat, i': nat, j': nat, a: nat ::
          Lists(tab, i, j, a) && Lists(tab, i', j', a) ==> i == i' && j == j')
    && (forall q :: 0 <= q < |ITab(h)| ==> 0 < ITab(h)[q] < h.nextBlock)
    && (forall q, q' :: 0 <= q < q' < |ITab(h)| ==> ITab(h)[q] != ITab(h)[q'])
  }

  /** No region in use is empty. */
  ghost predicate NoEmptyRegion(tab: seq<INode>) {
    forall i :: 0 <= i < |tab| ==> TableShape(tab[i]) && Solid(tab[i].regStart, tab[i].regLen)
  }

  /** The inodes in use as the disk holds them. */
  function StoredTable(h: HBlock, disk: seq<Block>): (r: seq<INode>)
    ensures |r| == h.nextInode && forall i :: 0 <= i < |r| ==> r[i] == NodeOnDisk(h, disk, i)
  {
    seq(h.nextInode, i requires 0 <= i => NodeOnDisk(h, disk, i))
  }

  /** The inodes in use as the file system sees them: through the cache where
      their block is cached. */
  function SeenTable(h: HBlock, disk: seq<Block>, c: Caches): (r: seq<INode>)
    requires |c.icache| == 32
    ensures |r| == h.nextInode
    ensures forall i :: 0 <= i < |r| ==>
              r[i] == if i / 32 == c.icindex then c.icache[i % 32] else NodeOnDisk(h, disk, i)
  {
    seq(h.nextInode, i requires 0 <= i => if i / 32 == c.icindex then c.icache[i % 32] else NodeOnDisk(h, disk, i))
  }

  /** Owners keep blocks apart. */
  lemma OwnersApart(h: HBlock, own: seq<Tag>, tab: seq<INode>, solid: bool)
    requires |own| == h.nextBlock <= h.nblocks && OwnsInodes(own, ITab(h))
    requires forall i :: 0 <= i < |tab| ==> NodeKept(own, i, tab[i], solid)
    ensures NoSharing(h, tab) && (solid ==> NoEmptyRegion(tab))
  {
    hide NodeBlocks, ZeroTail, Solid, DirFits, ITab;
    forall i: nat, j: nat, a: nat | Lists(tab, i, j, a) ensures 0 < a < |own| && own[a] == TagOf(tab[i].ftype, i, j) {
      assert NodeKept(own, i, tab[i], solid);
    }
  }

  /** The volume on the disk, and the one the file system sees, share no block. */
  lemma KeptNoSharing(h: HBlock, disk: seq<Block>, own: seq<Tag>, c: Caches, u: Upkeep)
    requires Kept(h, disk, own, c, u) && u.stored == u.known == h.nextInode
    ensures |c.icache| == 32 && |h.regStart| == |h.regLen| && Solid(h.regStart, h.regLen)
    ensures NoSharing(h, StoredTable(h, disk)) && NoSharing(h, SeenTable(h, disk, c))
    ensures u.solid ==> NoEmptyRegion(StoredTable(h, disk)) && NoEmptyRegion(SeenTable(h, disk, c))
  {
    hide NodeKept, NodeOnDisk, NoSharing, NoEmptyRegion, OwnsInodes;
    KeptRoom(h, disk, own, c, u);
    OwnersApart(h, own, StoredTable(h, disk), u.solid);
    OwnersApart(h, own, SeenTable(h, disk, c), u.solid);
  }
}
