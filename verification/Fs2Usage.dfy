/** Calls of the file system one after the other. */
module Fs2Usage {
  import opened Fs2Layout
  import opened Fs2State
  import opened Fs2Path
  import opened Fs2Update
  import opened Fs2Dirs
  import opened Fs2Kept
  import opened Fs2Tree
  import opened Fs2Laws
  import opened Fs2Volume

  // ------------------------------------------------------------------ any run

  datatype Op =
    | CreateOp(ftype: FType, path: string)
    | WriteOp(path: string, data: seq<Byte>, cursor: nat)
    | ReadOp(path: string, nbytes: nat, cursor: nat)
    | RmOp(path: string)
    | MountOp

  /** A write that asks for no region of no blocks, whatever it finds. */
  predicate AsksForBlocks(op: Op) { op.WriteOp? ==> 1 <= |op.data| <= 255 * 4096 }

  /** No block has two owners, on the disk or as the caches show it. */
  ghost predicate Apart(vol: Volume)
    reads vol
  {
    && |vol.icache| == 32 && BlockAt(vol.disk, 0) == HeaderBlock(vol.h)
    && |vol.h.regStart| == |vol.h.regLen| && Solid(vol.h.regStart, vol.h.regLen)
    && NoSharing(vol.h, StoredTable(vol.h, vol.disk))
    && NoSharing(vol.h, SeenTable(vol.h, vol.disk, vol.InCaches()))
  }

  ghost predicate Filled(vol: Volume)
    reads vol
  {
    && |vol.icache| == 32
    && NoEmptyRegion(StoredTable(vol.h, vol.disk))
    && NoEmptyRegion(SeenTable(vol.h, vol.disk, vol.InCaches()))
  }

  lemma OwningApart(vol: Volume)
    requires vol.Owning()
    ensures Apart(vol) && (vol.solid ==> Filled(vol))
  {
    hide Kept, NoSharing, NoEmptyRegion, Solid;
    KeptNoSharing(vol.h, vol.disk, vol.own, vol.InCaches(),
                  Upkeep(vol.h.nextInode, vol.h.nextInode, vol.solid));
  }

  /** Any calls, in any order and with any arguments, failed ones included, keep
      every block with its one owner, as long as every directory in use lists inodes
      in use only, and up to and including the call that puts an end to that. */
  method RunOps(vol: Volume, ops: seq<Op>) returns (done: nat)
    requires vol.Owning()
    modifies vol
    ensures vol.Owning() && done <= |ops| && (done < |ops| ==> !vol.AllInUse())
    ensures old(vol.AllInUse()) && ops != [] ==> 0 < done
    ensures old(vol.solid) && (forall k :: 0 <= k < |ops| ==> AsksForBlocks(ops[k])) ==> vol.solid
  {
    hide Kept, Consistent, ICacheOk, DCacheOk, XCacheOk, Resolve, Created, Linking, CreateParent, View, ListsInUse;
    done := 0;
    while done < |ops| && vol.AllInUse()
      invariant vol.Owning() && done <= |ops| && (done == 0 ==> vol.AllInUse() == old(vol.AllInUse()))
      invariant old(vol.solid) && (forall k :: 0 <= k < done ==> AsksForBlocks(ops[k])) ==> vol.solid
    {
      RunOp(vol, ops[done]);
      done := done + 1;
    }
  }

  method RunOp(vol: Volume, op: Op)
    requires vol.Owning() && vol.AllInUse()
    modifies vol
    ensures vol.Owning() && (old(vol.solid) && AsksForBlocks(op) ==> vol.solid)
  {
    hide Kept, Consistent, ICacheOk, DCacheOk, XCacheOk, Resolve, Created, Linking, CreateParent, View, ListsInUse,
         EntriesOf, InodesOf, FlatFrom, Tree;
    match op {
      case CreateOp(ftype, path) => var ok; ghost var par, linked; ok, par, linked := vol.Create(ftype, path);
      case WriteOp(path, data, cursor) => var n := vol.Write(path, data, cursor);
      case ReadOp(path, nbytes, cursor) => var n, out := vol.Read(path, nbytes, cursor);
      case RmOp(path) => var ok := vol.Rm(path);
      case MountOp =>
        MountShape(vol);
        vol.LoadVolume(vol.h, vol.ino, vol.own, vol.live, vol.pos);
    }
  }

  /** A structure that fs2_format_volume makes a whole volume of: an inode block is
      not taken for cached, and the general purpose cache does not contradict the
      disk, which may hold anything. */
  ghost predicate Formattable(vol: Volume, nblocks: nat)
    reads vol
  {
    vol.WellFormed() && nblocks <= |vol.disk| < NO_BLOCK && vol.icindex != 0
  }

  lemma NewInUse(vol: Volume, dsz: nat)
    requires vol.Valid() && |vol.Nodes0()| == 1 && NewView(vol.Nodes0()[0], Dir, 0, 0, dsz)
    ensures vol.AllInUse()
  {
    hide Kept, Consistent, ICacheOk, DCacheOk, XCacheOk, View, ListsInUse, EntriesOf, InodesOf, FlatFrom, Tree;
    vol.InUseSeen();
  }

  /** The same from the formatting of a disk on, whatever it holds: no block of the
      volume belongs to two inodes, or to an inode and the inode table, and unless
      the run writes nothing or more than 255 blocks at once no region in use is
      empty. */
  method FormatAndRun(vol: Volume, nblocks: nat, perms: nat, isz: nat, fsz: nat, dsz: nat, ops: seq<Op>)
    returns (done: nat)
    requires isz < 256 && fsz < 256 && dsz < 256 && !BadFormat(nblocks, isz, fsz, dsz)
    requires Formattable(vol, nblocks)
    modifies vol
    ensures vol.Owning() && Apart(vol) && done <= |ops| && (done < |ops| ==> !vol.AllInUse())
    ensures ops != [] ==> 0 < done
    ensures (forall k :: 0 <= k < |ops| ==> AsksForBlocks(ops[k])) ==> Filled(vol)
  {
    hide Kept, Consistent, ICacheOk, DCacheOk, XCacheOk, View, Formatted, NewView, Apart, Filled, ListsInUse;
    vol.Format(nblocks, perms, isz, fsz, dsz);
    NewInUse(vol, dsz);
    done := RunOps(vol, ops);
    OwningApart(vol);
  }

  // -------------------------------------------------------------- orderly runs

  /** The call keeps the volume whole, and leaves no region empty: a write starts
      within the file and comes to be given no region of no blocks; a removal that
      is not refused finds its entry, does not go by way of the removed directory
      itself, and the cache is fresh on the entry that is moved into the gap. */
  ghost predicate Orderly(vol: Volume, op: Op)
    requires vol.Valid()
    reads vol
  {
    match op
    case CreateOp(_, _) => true
    case ReadOp(_, _, _) => true
    case WriteOp(path, data, cursor) => OrderlyWrite(vol, path, |data|, cursor)
    case RmOp(path) => OrderlyRemoval(vol, path)
    case MountOp => true
  }

  ghost predicate OrderlyWrite(vol: Volume, path: string, n: nat, cursor: nat)
    reads vol
  {
    var view, t := vol.Nodes0(), Target(vol.Nodes0(), path);
    t.Hit? ==>
      t.child < |view| == |vol.ino|
      && (view[t.child].FileNode? ==>
            cursor <= |view[t.child].bytes| && !GoesHollow(vol.h, vol.ino[t.child], n, cursor))
  }

  ghost predicate OrderlyRemoval(vol: Volume, path: string)
    reads vol
  {
    var view, t := vol.Nodes0(), Target(vol.Nodes0(), path);
    t.Hit? && t.child != 0 && t.child < |view| && (view[t.child].DirNode? ==> |view[t.child].entries| <= 2) ==>
      t.child != t.parent && t.parent < |view| == |vol.ino| && view[t.parent].DirNode?
      && var es := view[t.parent].entries;
         var k := LinkOf(es, t.child, 0);
         k < |es| && InReach(k) && FreshLast(es, NodeBlocks(vol.ino[t.parent]), k, vol.xcaddr, vol.xcache)
  }

  /** Nothing has changed that a check for orderliness looks at. */
  twostate predicate OnlyLoaded(vol: Volume)
    reads vol
  {
    && vol.h == old(vol.h) && vol.disk == old(vol.disk) && vol.ino == old(vol.ino)
    && vol.xcaddr == old(vol.xcaddr) && vol.xcache == old(vol.xcache) && vol.solid == old(vol.solid)
  }

  /** Whether a write is orderly can be told before it. */
  method MayWrite(vol: Volume, path: string, n: nat, cursor: nat) returns (b: bool)
    requires vol.Valid()
    modifies vol
    ensures vol.Valid() && OnlyLoaded(vol) && (b <==> OrderlyWrite(vol, path, n, cursor))
  {
    hide Consistent, ICacheOk, DCacheOk, XCacheOk, Resolve, Kept, NodeKept, NodeBlocks, GoesHollow, View, NodeView;
    var i := vol.OpenInode(path);
    if vol.outcome != Success { return true; }
    var inode := vol.icache[i % 32];
    FileSize(vol, i);
    b := inode.ftype != File || (cursor <= Shown(inode) && !GoesHollow(vol.h, inode, n, cursor));
  }

  lemma FileSize(vol: Volume, i: nat)
    requires vol.Valid() && i in vol.live
    ensures i < |vol.Nodes0()| == |vol.ino| && (vol.ino[i].ftype.File? <==> vol.Nodes0()[i].FileNode?)
    ensures vol.ino[i].ftype.File? ==> |vol.Nodes0()[i].bytes| == Shown(vol.ino[i])
  {
    hide Consistent, Kept;
    vol.Whole();
    LiveNode(vol.h, vol.disk, vol.ino, vol.own, vol.live, vol.pos, i);
  }

  /** Whether a removal is orderly can be told before it. */
  method MayRemove(vol: Volume, path: string) returns (b: bool)
    requires vol.Valid()
    modifies vol
    ensures vol.Valid() && OnlyLoaded(vol) && (b <==> OrderlyRemoval(vol, path))
  {
    hide Consistent, ICacheOk, DCacheOk, XCacheOk, Resolve, Kept, NodeKept, NodeBlocks, View, NodeOnDisk, LinkOf,
         FreshLast, ListsInUse, NamesBelow, Shown, EntriesOf, FlatFrom, InodesOf, Sized, NodeView, Tree;
    var c, p := vol.FindFile(path, 0);
    if vol.outcome != Success { return true; }
    if c == 0 { return true; }
    vol.HitParts(path);
    vol.LoadInode(c);
    var inode := vol.icache[c % 32];
    if inode.ftype == Dir && inode.eof > 2 { return true; }
    if c == p { return false; }
    vol.NowLeaf(path);
    b := MayUnlink(vol, c, p);
  }

  method MayUnlink(vol: Volume, c: nat, p: nat) returns (b: bool)
    requires vol.Leaf(c, p) && c != p
    modifies vol
    ensures vol.Valid() && OnlyLoaded(vol) && p < |vol.Nodes0()| == |vol.ino| && vol.Nodes0()[p].DirNode?
    ensures var es := vol.Nodes0()[p].entries;
            var k := LinkOf(es, c, 0);
            && k < |es|
            && (b <==> InReach(k) && FreshLast(es, NodeBlocks(vol.ino[p]), k, vol.xcaddr, vol.xcache))
  {
    hide Consistent, ICacheOk, DCacheOk, XCacheOk, Kept, NodeKept, NodeBlocks, View, NodeOnDisk, LinkOf, FreshLast,
         NodeView, SeenLink, NoLink, Sized, InReach, EntriesOf, InodesOf, FlatFrom, Tree;
    LeafIn(vol, c, p);
    vol.LoadInode(p);
    var dinode := vol.icache[p % 32];
    vol.Whole();
    var found, k := vol.FindLink(dinode, c, p);
    vol.Coherence();
    vol.NowValid();
    LinkSeen(vol, c, p, found, k);
    if !found { return false; }
    b := LastIsFresh(vol, dinode, k);
  }

  lemma LeafIn(vol: Volume, c: nat, p: nat)
    requires vol.Leaf(c, p)
    ensures vol.Valid() && p in vol.live && p < |vol.ino| && vol.ino[p].ftype.Dir? && c != 0 && Sized(vol.ino[p])
    ensures vol.h.nextInode == |vol.ino| == |vol.Nodes0()|
  {
    hide Consistent, Kept, NodeView;
    vol.Whole();
    LiveNode(vol.h, vol.disk, vol.ino, vol.own, vol.live, vol.pos, p);
  }

  /** The link found is the only one; if none is found, it is out of reach. */
  lemma LinkSeen(vol: Volume, c: nat, p: nat, found: bool, k: nat)
    requires vol.Leaf(c, p) && c != p && vol.ino[p].ftype.Dir?
    requires var es := DirEntries(vol.disk, NodeBlocks(vol.ino[p]), vol.ino[p].eof);
             if found then SeenLink(es, c, k) else NoLink(es, c, |es|)
    ensures var blocks := NodeBlocks(vol.ino[p]);
            vol.Nodes0()[p] == DirNode(DirEntries(vol.disk, blocks, vol.ino[p].eof), |blocks|)
    ensures var es := vol.Nodes0()[p].entries;
            && LinkOf(es, c, 0) < |es| && (found <==> InReach(LinkOf(es, c, 0))) && (found ==> k == LinkOf(es, c, 0))
  {
    hide Consistent, Kept, NodeBlocks, DirEntries;
    vol.LeafStart(c, p);
    LinkAt(vol.ino, vol.Nodes0(), vol.live, vol.pos, p, c);
  }

  /** Whether the general purpose cache shows the last entry's inode. */
  method LastIsFresh(vol: Volume, dinode: INode, k: nat) returns (b: bool)
    requires TableShape(dinode) && k < dinode.eof
    ensures b <==> FreshLast(DirEntries(vol.disk, NodeBlocks(dinode), dinode.eof), NodeBlocks(dinode), k, vol.xcaddr,
                             vol.xcache)
  {
    hide Flat;
    var last := dinode.eof - 1;
    if k / 128 == last / 128 { return true; }
    var a := FindBlk(dinode.regStart, dinode.regLen, 23, last / 128);
    if vol.xcaddr != a { return true; }
    var ok, blk := vol.RBlk(a);
    b := EntriesOf(vol.xcache)[last % 128].inodeIndex == EntriesOf(blk)[last % 128].inodeIndex;
  }

  method MayDo(vol: Volume, op: Op) returns (b: bool)
    requires vol.Valid()
    modifies vol
    ensures vol.Valid() && OnlyLoaded(vol) && (b <==> Orderly(vol, op))
  {
    hide Consistent, ICacheOk, DCacheOk, XCacheOk, Kept, OrderlyWrite, OrderlyRemoval;
    b := true;
    match op {
      case CreateOp(ftype, path) =>
      case WriteOp(path, data, cursor) => b := MayWrite(vol, path, |data|, cursor);
      case ReadOp(path, nbytes, cursor) =>
      case RmOp(path) => b := MayRemove(vol, path);
      case MountOp =>
    }
  }

  /** An orderly call keeps the volume whole, and its regions non-empty. */
  method DoOrderly(vol: Volume, op: Op)
    requires vol.Valid() && Orderly(vol, op)
    modifies vol
    ensures vol.Valid() && (old(vol.solid) ==> vol.solid)
  {
    hide Kept, Consistent, ICacheOk, DCacheOk, XCacheOk, Resolve, Created, Linking, CreateParent, View, GoesHollow,
         Reach, Fits, Room, NodeBlocks, LinkOf, FreshLast, GapFilled, OnlyThese, LostLast, Clean, AllSolid, EntriesOf,
         InodesOf, FlatFrom, Tree;
    if op.MountOp? { vol.Whole(); }
    match op {
      case CreateOp(ftype, path) => var ok; ghost var par, linked; ok, par, linked := vol.Create(ftype, path);
      case WriteOp(path, data, cursor) => var n := vol.Write(path, data, cursor);
      case ReadOp(path, nbytes, cursor) => var n, out := vol.Read(path, nbytes, cursor);
      case RmOp(path) => var ok := vol.Rm(path);
      case MountOp =>
        MountShape(vol);
        vol.LoadVolume(vol.h, vol.ino, vol.own, vol.live, vol.pos);
    }
  }

  // --------------------------------------------------------- what is listed

  /** The removal of the file at `path` moves an entry into the gap that names no
      inode in use: the general purpose cache shows it as the directory's last. */
  ghost predicate BringsStray(vol: Volume, path: string)
    reads vol
  {
    var view, t := vol.Nodes0(), Target(vol.Nodes0(), path);
    && t.Hit? && t.child != 0 && t.child != t.parent && t.child < |view| && t.parent < |view| == |vol.ino|
    && (view[t.child].DirNode? ==> |view[t.child].entries| <= 2) && view[t.parent].DirNode?
    && var es := view[t.parent].entries;
       var k := LinkOf(es, t.child, 0);
       && k < |es| && InReach(k)
       && Replacement(es, NodeBlocks(vol.ino[t.parent]), k, vol.xcaddr, vol.xcache).inodeIndex >= |view|
  }

  /** In a whole volume whose directories list inodes in use only, a call puts an
      end to that exactly if it is such a removal. */
  method OpInUse(vol: Volume, op: Op)
    requires vol.Valid() && vol.AllInUse()
    modifies vol
    ensures vol.Owning() && (vol.AllInUse() <==> !(op.RmOp? && old(BringsStray(vol, op.path))))
  {
    hide Kept, Consistent, ICacheOk, DCacheOk, XCacheOk, Resolve, Created, Linking, CreateParent, View, ListsInUse,
         ViewInUse, BringsStray, Clean, GoesHollow, NodeBlocks, Volume.WriteResult, Volume.Removed;
    vol.InUseSeen();
    ghost var view := vol.Nodes0();
    match op {
      case CreateOp(ftype, path) =>
        var ok; ghost var par, linked;
        ok, par, linked := vol.Create(ftype, path);
        if ok { CreatedInUse(view, vol.Nodes0(), par, NewName(path), ftype, vol.h.dregLen, linked); }
        vol.InUseSeen();
      case WriteOp(path, data, cursor) =>
        WriteInUse(vol, path, data, cursor);
      case ReadOp(path, nbytes, cursor) =>
        var n, out := vol.Read(path, nbytes, cursor);
        vol.InUseSeen();
      case RmOp(path) =>
        RmInUse(vol, path);
      case MountOp =>
        vol.Whole();
        MountShape(vol);
        vol.LoadVolume(vol.h, vol.ino, vol.own, vol.live, vol.pos);
        vol.InUseSeen();
    }
  }

  /** An orderly removal is no such removal. */
  lemma OrderlyMoves(vol: Volume, path: string)
    requires vol.Valid() && vol.AllInUse() && OrderlyRemoval(vol, path)
    ensures !BringsStray(vol, path)
  {
    hide Kept, Consistent, ICacheOk, DCacheOk, XCacheOk, View, ListsInUse, Resolve, NodeBlocks, LinkOf, Replacement,
         FreshLast, InReach;
    vol.InUseSeen();
    var view, t := vol.Nodes0(), Target(vol.Nodes0(), path);
    if BringsStray(vol, path) {
      var es := view[t.parent].entries;
      FreshMoves(es, NodeBlocks(vol.ino[t.parent]), LinkOf(es, t.child, 0), vol.xcaddr, vol.xcache);
    }
  }

  method WriteInUse(vol: Volume, path: string, data: seq<Byte>, cursor: nat)
    requires vol.Valid() && vol.AllInUse()
    modifies vol
    ensures vol.Owning() && vol.AllInUse()
  {
    hide Kept, Consistent, ICacheOk, DCacheOk, XCacheOk, Resolve, View, ListsInUse, ViewInUse, Volume.LeftBehind,
         Volume.NothingMore, GoesHollow, NodeBlocks, Landed, Reach, Fits, Room, Volume.HollowLeft, SolidNode, Shown;
    vol.InUseSeen();
    ghost var view := vol.Nodes0();
    var n := vol.Write(path, data, cursor);
    if vol.outcome == Success {
      FileInUse(view, vol.Nodes0(), Target(view, path).child);
      vol.InUseSeen();
    }
  }

  method RmInUse(vol: Volume, path: string)
    requires vol.Valid() && vol.AllInUse()
    modifies vol
    ensures vol.Owning() && (vol.AllInUse() <==> !old(BringsStray(vol, path)))
  {
    hide Kept, Consistent, ICacheOk, DCacheOk, XCacheOk, Resolve, View, ListsInUse, ViewInUse, NodeBlocks, Clean,
         LostLast, FreshLast, LinkOf, Replacement, GapFilled, InReach, Cleared;
    vol.InUseSeen();
    LeafLink(vol);
    ghost var view, ino, x0, c0 := vol.Nodes0(), vol.ino, vol.xcaddr, vol.xcache;
    var ok := vol.Rm(path);
    if ok {
      CleanInUse(vol);
      ghost var c, p := Target(view, path).child, Target(view, path).parent;
      if c == p {
        SelfInUse(view, vol.Nodes0(), vol.ino, c);
      } else {
        RemovedInUse(view, vol.Nodes0(), ino, vol.ino, c, p, x0, c0, vol.xcaddr, vol.xcache);
      }
    }
  }

  lemma CleanInUse(vol: Volume)
    requires Clean(vol.h, vol.disk, vol.ino, vol.own, vol.InCaches())
    ensures vol.AllInUse() <==> ViewInUse(vol.Nodes0())
    ensures |vol.Nodes0()| == |vol.ino| == vol.h.nextInode <= 32 * |ITab(vol.h)|
  {
    hide ListsInUse, ViewInUse, NodeOnDisk, View, HeaderOk, Owned, Nodes, DCacheOk, XCacheOk, ITab;
    InUseShows(vol.h, vol.disk, vol.ino, vol.icindex, vol.icache);
  }

  lemma CreatedInUse(view: seq<Node>, view': seq<Node>, p: nat, name: string, ft: FType, dregLen: nat, linked: bool)
    requires Created(view, view', p, name, ft, dregLen, linked) && ViewInUse(view)
    ensures ViewInUse(view')
  {
    hide Pad;
    var n := |view|;
    forall i, k | 0 <= i < |view'| && view'[i].DirNode? && 0 <= k < |view'[i].entries|
      ensures view'[i].entries[k].inodeIndex < |view'|
    {
      if i < n { assert view'[i] == view'[..n][i]; }
    }
  }

  lemma FileInUse(view: seq<Node>, view': seq<Node>, c: nat)
    requires c < |view| == |view'| && view' == view[c := view'[c]] && view'[c].FileNode? && ViewInUse(view)
    ensures ViewInUse(view')
  {
  }

  /** A directory that has lost its entry "." lists no more than before. */
  lemma SelfInUse(view: seq<Node>, view': seq<Node>, ino': seq<INode>, c: nat)
    requires ViewInUse(view) && c < |view| && view[c].DirNode? && |view[c].entries| == 2
    requires SelfRemoval(view, view', ino', c, Success)
    ensures ViewInUse(view')
  {
    hide NodeBlocks;
    assert view[c].entries[1].inodeIndex < |view|;
    forall i | 0 <= i < |view| && i != c ensures view'[i] == view[i] {}
  }

  /** After a removal the gap's new entry is the only one that may name no inode in
      use. */
  lemma RemovedInUse(view: seq<Node>, view': seq<Node>, ino: seq<INode>, ino': seq<INode>, c: nat, p: nat, x0: nat,
                     c0: Block, x1: nat, c1: Block)
    requires ViewInUse(view) && c < |view| == |ino| == |view'| && p < |view| == |ino'| && view[p].DirNode? && c != p
    requires OnlyThese(view, view', c, p) && Cleared(view[c], view'[c])
    requires var k := LinkOf(view[p].entries, c, 0);
             k < |view[p].entries| && GapFilled(view[p], view'[p], ino[p], ino'[p], k, x0, c0, x1, c1)
    ensures var k := LinkOf(view[p].entries, c, 0);
            ViewInUse(view') <==> Replacement(view[p].entries, NodeBlocks(ino[p]), k, x0, c0).inodeIndex < |view|
  {
    hide NodeBlocks, LinkOf, Replacement, LastLoaded, Sized;
    var es, k := view[p].entries, LinkOf(view[p].entries, c, 0);
    var e := Replacement(es, NodeBlocks(ino[p]), k, x0, c0);
    LastIsListed(es, NodeBlocks(ino[p]), k, x0, c0);
    assert forall j :: 0 <= j < |es| ==> es[j].inodeIndex < |view|;
    if k < |es| - 1 {
      assert view'[p].entries[k] == e;
    }
    if e.inodeIndex < |view| {
      forall i, j | 0 <= i < |view'| && view'[i].DirNode? && 0 <= j < |view'[i].entries|
        ensures view'[i].entries[j].inodeIndex < |view'|
      {
        if i == p { assert view'[p].entries[j] == if j == k then e else es[j]; }
      }
    }
  }

  lemma LastIsListed(es: seq<DirEntry>, blocks: seq<nat>, k: nat, x0: nat, c0: Block)
    requires k < |es|
    ensures k == |es| - 1 ==> Replacement(es, blocks, k, x0, c0) == es[k]
  {
    hide EntriesOf;
  }

  /** The orderly ones of any calls, each checked before it is made: the volume
      stays whole. */
  method RunOrderly(vol: Volume, ops: seq<Op>)
    requires vol.Valid()
    modifies vol
    ensures vol.Valid() && (old(vol.solid) ==> vol.solid)
  {
    hide Kept, Consistent, ICacheOk, DCacheOk, XCacheOk, Orderly;
    for n := 0 to |ops|
      invariant vol.Valid() && (old(vol.solid) ==> vol.solid)
    {
      var b := MayDo(vol, ops[n]);
      if b { DoOrderly(vol, ops[n]); }
    }
  }

  /** The same from the formatting of a disk on that may hold anything. */
  method FormatAndRunOrderly(vol: Volume, nblocks: nat, perms: nat, isz: nat, fsz: nat, dsz: nat, ops: seq<Op>)
    requires isz < 256 && fsz < 256 && dsz < 256 && !BadFormat(nblocks, isz, fsz, dsz) && Formattable(vol, nblocks)
    modifies vol
    ensures vol.Valid() && Apart(vol) && Filled(vol)
  {
    hide Kept, Consistent, ICacheOk, DCacheOk, XCacheOk, View, Formatted, NewView, Apart, Filled;
    vol.Format(nblocks, perms, isz, fsz, dsz);
    RunOrderly(vol, ops);
    OwningApart(vol);
  }

  /** A write within a file leaves no region empty exactly unless it comes to be
      given one of no blocks. */
  method WriteFills(vol: Volume, path: string, data: seq<Byte>, cursor: nat) returns (n: int)
    requires vol.Valid() && vol.solid && Target(vol.Nodes0(), path).Hit?
    requires var c := Target(vol.Nodes0(), path).child;
             && c < |vol.Nodes0()| == |vol.ino| && vol.Nodes0()[c].FileNode? && cursor <= |vol.Nodes0()[c].bytes|
    modifies vol
    ensures Filled(vol) <==>
            !GoesHollow(old(vol.h), old(vol.ino[Target(vol.Nodes0(), path).child]), |data|, cursor)
  {
    hide Kept, Consistent, ICacheOk, DCacheOk, XCacheOk, Resolve, View, GoesHollow, Reach, Fits, Room, NodeBlocks,
         Filled, SolidNode, Landed, NodeOnDisk, OthersSame, Holds;
    ghost var c, h0, nd := Target(vol.Nodes0(), path).child, vol.h, vol.ino[Target(vol.Nodes0(), path).child];
    n := vol.Write(path, data, cursor);
    if GoesHollow(h0, nd, |data|, cursor) {
      if vol.outcome == Success { vol.Whole(); }
      NotFilled(vol, c);
    } else {
      OwningApart(vol);
    }
  }

  lemma NotFilled(vol: Volume, c: nat)
    requires vol.Owning() && c < vol.h.nextInode && |vol.icache| == 32 && vol.icindex == c / 32
    requires !SolidNode(vol.icache[c % 32])
    ensures !Filled(vol)
  {
    hide Kept;
    assert SeenTable(vol.h, vol.disk, vol.InCaches())[c] == vol.icache[c % 32];
  }

  // ------------------------------------------------------------------- round trips

  /** What fs2_write stores, fs2_read returns, for every range; the file ends
      where the write ended, and every other file and every path is as before.
      What is stored are the caller's bytes, except for a partial last block. */
  method WriteThenRead(vol: Volume, path: string, data: seq<Byte>, cursor: nat, from: nat, len: nat)
    returns (written: int, n: int, out: seq<Byte>)
    requires vol.Valid() && Target(vol.Nodes0(), path).Hit?
    requires var c := Target(vol.Nodes0(), path).child;
             && c < |vol.Nodes0()| && c < |vol.ino| && vol.Nodes0()[c].FileNode?
             && cursor <= |vol.Nodes0()[c].bytes|
             && Fits(|data|, cursor, |NodeBlocks(vol.ino[c])|) && Room(vol.h, vol.ino[c], |data|, cursor)
    modifies vol
    ensures vol.Valid()
    ensures var view, c := old(vol.Nodes0()), Target(old(vol.Nodes0()), path).child;
            var file := view[c].bytes[..cursor] + Landed(data, cursor, |data|);
            && written == |data| && vol.Nodes0() == view[c := FileNode(file)]
            && n == Readable(|file|, from, len) && (n > 0 ==> out == file[from..from + n])
    ensures |data| <= 4096 - cursor % 4096 || (cursor + |data|) % 4096 == 0 ==> Landed(data, cursor, |data|) == data
    ensures forall s :: Target(vol.Nodes0(), s) == Target(old(vol.Nodes0()), s)
  {
    hide Fits, Room, Landed, NodeBlocks, Resolve, Consistent, ICacheOk, DCacheOk, XCacheOk, Kept, View;
    ghost var view, c := vol.Nodes0(), Target(vol.Nodes0(), path).child;
    ghost var file := view[c].bytes[..cursor] + Landed(data, cursor, |data|);
    LandedWhole(data, cursor);
    written := vol.Write(path, data, cursor);
    assert vol.Nodes0() == view[c := FileNode(file)];
    PathsStay(view, c, file);
    n, out := vol.Read(path, len, from);
  }

  lemma LandedWhole(data: seq<Byte>, cursor: nat)
    ensures |data| <= 4096 - cursor % 4096 || (cursor + |data|) % 4096 == 0 ==> Landed(data, cursor, |data|) == data
  {
    WriteFaithful(|data|, cursor);
  }

  /** A new file is found under its path, in the directory it was entered in and
      with the number of the next free inode, exactly if its entry was stored,
      lookups get to it, and the parent part of the path leads to that directory. */
  method CreateThenFind(vol: Volume, ftype: FType, path: string)
    returns (ok: bool, found: nat, under: nat, ghost linked: bool)
    requires vol.Valid() && Target(vol.Nodes0(), path) == Miss(NoFile) && path[|path| - 1] != '/'
    requires CreateParent(vol.Nodes0(), path).Hit?
    modifies vol
    ensures vol.Valid()
    ensures ok ==>
              var view, p := old(vol.Nodes0()), CreateParent(old(vol.Nodes0()), path).child;
              var name, dregLen := NewName(path), vol.h.dregLen;
              && p < |view| && view[p].DirNode? && view[0].DirNode?
              && (vol.outcome == Success && found == |view| && under == p
                  <==> linked && Shows(view[p], name, dregLen) && |name| <= 28
                       && ParentFound(if p == 0 then Added(dregLen, view[0], DirEntry(|view|, Pad(name))) else view[0],
                                      path))
    ensures forall s :: ok && Target(old(vol.Nodes0()), s).Hit? ==>
              Target(vol.Nodes0(), s) == Target(old(vol.Nodes0()), s)
    ensures ok ==> MissesStay(old(vol.Nodes0()), vol.Nodes0(), path, vol.h.dregLen, linked)
  {
    hide Resolve, Created, Linking, ParentEnd, NewName, CreateParent, Consistent, ICacheOk, DCacheOk, XCacheOk, CanAdd,
         Shows, View, Kept, ParentFound, MissesStay, Inside, EntriesOf, InodesOf, FlatFrom, Tree, HasInodeSpace,
         Reserved, Bump;
    found, under := 0, 0;
    ghost var view, p, live := vol.Nodes0(), CreateParent(vol.Nodes0(), path).child, vol.live;
    ghost var par;
    ParentOf(vol, path);
    InTree(vol);
    ok, par, linked := vol.Create(ftype, path);
    if ok {
      ghost var view', dregLen := vol.Nodes0(), vol.h.dregLen;
      CreateKeepsTargets(view, view', p, NewName(path), ftype, dregLen, linked);
      InTree(vol);
      CreateKeepsOtherMisses(view, view', path, ftype, dregLen, linked, live);
      CreateResolves(view, view', path, ftype, dregLen, linked);
      found, under := vol.FindFile(path, 0);
    }
  }

  /** What led nowhere before the creation of `path` still does, and for the same
      reason, unless it looks up a name that has appeared in the directory. */
  ghost predicate MissesStay(view: seq<Node>, view': seq<Node>, path: string, dregLen: nat, linked: bool)
    requires path != ""
  {
    var p := CreateParent(view, path);
    p.Hit? && p.child < |view| && view[p.child].DirNode?
    && forall s :: s != "" && '\0' !in s && Target(view, s).Miss?
                   && !(linked && NewlySeen(view, p.child, NewName(path), dregLen, 0, s)) ==>
         Target(view', s) == Target(view, s)
  }

  lemma CreateKeepsOtherMisses(view: seq<Node>, view': seq<Node>, path: string, ft: FType, dregLen: nat, linked: bool,
                               live: set<nat>)
    requires path != "" && CreateParent(view, path).Hit? && 1 <= dregLen && Inside(view, live) && 0 in live
    requires Created(view, view', CreateParent(view, path).child, NewName(path), ft, dregLen, linked)
    requires forall i :: 0 <= i < |view| && view[i].DirNode? ==> |view[i].entries| <= 128 * view[i].blocks
    ensures MissesStay(view, view', path, dregLen, linked)
  {
    hide Resolve, CreateParent, NewName, NewlySeen, Inside;
    var p, name := CreateParent(view, path).child, NewName(path);
    forall s | s != "" && '\0' !in s && Target(view, s).Miss? && !(linked && NewlySeen(view, p, name, dregLen, 0, s))
      ensures Target(view', s) == Target(view, s)
    {
      CreateKeepsMisses(view, view', p, name, ft, dregLen, linked, live, 0, s);
    }
  }

  lemma InTree(vol: Volume)
    requires vol.Valid()
    ensures Inside(vol.Nodes0(), vol.live) && 0 in vol.live && 1 <= vol.h.dregLen
    ensures forall i :: 0 <= i < |vol.Nodes0()| && vol.Nodes0()[i].DirNode? ==>
              |vol.Nodes0()[i].entries| <= 128 * vol.Nodes0()[i].blocks
  {
    hide Lookup, NodeBlocks, Kept, ICacheOk, DCacheOk, XCacheOk, EntriesOf, InodesOf, Tree, Owned, Nodes, Stored;
    vol.Whole();
    RootLive(vol.h, vol.disk, vol.ino, vol.own, vol.live, vol.pos);
    forall e, n | e in vol.live
      ensures e < |vol.Nodes0()|
      ensures Lookup(vol.Nodes0()[e], n).Found? ==> Lookup(vol.Nodes0()[e], n).child in vol.live
    {
      LookupLive(vol.h, vol.disk, vol.ino, vol.own, vol.live, vol.pos, e, n);
    }
  }

  /** What lies below a file is neither found nor created: both calls say that the
      file is no directory. */
  method BelowFile(vol: Volume, s: string, name: string, ftype: FType) returns (ok: bool, why: Outcome)
    requires vol.Valid() && s != "" && s[|s| - 1] != '/' && PlainName(name) && |name| <= 28
    requires var view, t := vol.Nodes0(), Target(vol.Nodes0(), s);
             t.Hit? && t.child < |view| && view[t.child].FileNode?
    modifies vol
    ensures vol.Valid() && vol.Nodes0() == old(vol.Nodes0()) && !ok && why == BadFType && vol.outcome == BadFType
  {
    hide Resolve, Consistent, ICacheOk, DCacheOk, XCacheOk, View, Kept, CreateParent, Created, Linking;
    ghost var view := vol.Nodes0();
    assert ("/" + name)[1..] == name && s + ("/" + name) == s + "/" + name;
    ThroughFile(view, s, "/" + name);
    var child, parent := vol.FindFile(s + "/" + name, 0);
    why := vol.outcome;
    ghost var par, linked;
    ok, par, linked := vol.Create(ftype, s + "/" + name);
  }

  lemma ParentOf(vol: Volume, path: string)
    requires vol.Valid() && path != "" && CreateParent(vol.Nodes0(), path).Hit?
    ensures var view, p := vol.Nodes0(), CreateParent(vol.Nodes0(), path).child;
            && p < |view| && view[0].DirNode?
            && (view[p].DirNode? ==>
                  forall k :: 0 <= k < |view[p].entries| ==> view[p].entries[k].inodeIndex != |view|)
  {
    hide Consistent, CreateParent, View, Kept;
    vol.Whole();
    ParentInTable(vol.h, vol.disk, vol.ino, vol.own, vol.live, vol.pos, path);
    RootIsNode(vol.h, vol.disk, vol.ino, vol.own, vol.live, vol.pos);
  }

  /** A file or an empty directory whose entry is within reach of fs2_unlink, and
      whose directory's last block is not stale in the cache, is removed: no
      path finds it again, and every path that does not go through it and looks
      up only unambiguous names in its directory leads where it led.  The directory
      has lost that one entry, unless the cache shows the last one under another
      name. */
  method RemoveThenFind(vol: Volume, path: string, other: string) returns (ok: bool, found: nat)
    requires vol.Valid() && Target(vol.Nodes0(), path).Hit?
    requires var view, t := vol.Nodes0(), Target(vol.Nodes0(), path);
             && t.child != 0 && t.child != t.parent && t.child < |view| && t.parent < |view| && t.parent < |vol.ino|
             && (view[t.child].FileNode? || |view[t.child].entries| <= 2) && view[t.parent].DirNode?
             && var es := view[t.parent].entries;
                var k := LinkOf(es, t.child, 0);
                && k < |es| && InReach(k) && FreshLast(es, NodeBlocks(vol.ino[t.parent]), k, vol.xcaddr, vol.xcache)
    modifies vol
    ensures ok && vol.Valid()
    ensures var t := Target(old(vol.Nodes0()), path);
            t.parent < |vol.Nodes0()| && OneLess(old(vol.Nodes0())[t.parent], vol.Nodes0()[t.parent],
                                                 old(NodeBlocks(vol.ino[t.parent])), t.child, old(vol.xcaddr),
                                                 old(vol.xcache))
    ensures vol.outcome == Success ==> found != Target(old(vol.Nodes0()), path).child
    ensures forall s :: Undisturbed(old(vol.Nodes0()), old(vol.ino), old(vol.xcaddr), old(vol.xcache), path, s) ==>
              Target(vol.Nodes0(), s) == Target(old(vol.Nodes0()), s)
  {
    hide Resolve, Target, NodeBlocks, Consistent, LinkOf, FreshLast, GapFilled, InReach, View, Kept, ICacheOk, DCacheOk,
         XCacheOk, Undisturbed, Removal, OneLess;
    ghost var view, ino0, x0, c0 := vol.Nodes0(), vol.ino, vol.xcaddr, vol.xcache;
    ghost var t, live0 := Target(vol.Nodes0(), path), vol.live;
    LeafLink(vol);
    ok := vol.Rm(path);
    RemovalSays(view, vol.Nodes0(), ino0, vol.ino, t.child, t.parent, x0, c0, vol.xcaddr, vol.xcache, vol.outcome,
                vol.Valid(), vol.live == live0 - {t.child},
                LostLast(view, vol.Nodes0(), vol.ino, live0, t.child, t.parent));
    ghost var view' := vol.Nodes0();
    NowOneLess(view[t.parent], view'[t.parent], ino0[t.parent], vol.ino[t.parent], t.child, x0, c0, vol.xcaddr,
               vol.xcache);
    forall s | Undisturbed(view, ino0, x0, c0, path, s) ensures Target(view', s) == Target(view, s) {
      PathKept(view, view', ino0, vol.ino, x0, c0, vol.xcaddr, vol.xcache, path, s);
    }
    NoPathIn(vol, t.child, other);
    found := Find(vol, other);
  }

  /** The entries of a directory are the same but for that of inode c, if what the
      cache shows as the last one is the last one. */
  ghost predicate OneLess(n: Node, n': Node, blocks: seq<nat>, c: nat, xcaddr: nat, xcache: Block) {
    && n.DirNode? && n'.DirNode? && LinkOf(n.entries, c, 0) < |n.entries|
    && var es, k := n.entries, LinkOf(n.entries, c, 0);
       Replacement(es, blocks, k, xcaddr, xcache) == es[|es| - 1] ==>
         multiset(n'.entries) + multiset{es[k]} == multiset(es)
  }

  lemma NowOneLess(n: Node, n': Node, nd: INode, nd': INode, c: nat, xcaddr: nat, xcache: Block,
                   xcaddr': nat, xcache': Block)
    requires n.DirNode? && LinkOf(n.entries, c, 0) < |n.entries|
    requires GapFilled(n, n', nd, nd', LinkOf(n.entries, c, 0), xcaddr, xcache, xcaddr', xcache')
    ensures OneLess(n, n', NodeBlocks(nd), c, xcaddr, xcache)
  {
    hide NodeBlocks, LinkOf, Replacement, LastLoaded, Sized, Dropped;
    DroppedSame(n.entries, LinkOf(n.entries, c, 0));
  }

  /** A path that leads somewhere and that the removal of `path` does not touch:
      it passes through no removed inode, the names it looks up in the removed
      one's directory are unambiguous, and the cached entry that fills the gap
      is the directory's last. */
  ghost predicate Undisturbed(view: seq<Node>, ino: seq<INode>, xcaddr: nat, xcache: Block, path: string, s: string) {
    && Target(view, path).Hit? && Target(view, s).Hit?
    && var c, p := Target(view, path).child, Target(view, path).parent;
       && p < |view| && p < |ino| && view[p].DirNode?
       && (var es := view[p].entries;
           var k := LinkOf(es, c, 0);
           2 <= k < |es| && Replacement(es, NodeBlocks(ino[p]), k, xcaddr, xcache) == es[|es| - 1])
       && (s != "" ==> Avoids(view, 0, Components(s), c) && ClearIn(view, p, 0, Components(s)))
  }

  lemma PathKept(view: seq<Node>, view': seq<Node>, ino: seq<INode>, ino': seq<INode>, xcaddr: nat, xcache: Block,
                 xcaddr': nat, xcache': Block, path: string, s: string)
    requires Undisturbed(view, ino, xcaddr, xcache, path, s) && |view| == |view'| && |ino| == |view|
    requires var t := Target(view, path);
             && t.child < |view| && t.parent < |ino'| && OnlyThese(view, view', t.child, t.parent)
             && GapFilled(view[t.parent], view'[t.parent], ino[t.parent], ino'[t.parent],
                          LinkOf(view[t.parent].entries, t.child, 0),
                          xcaddr, xcache, xcaddr', xcache')
    ensures Target(view', s) == Target(view, s)
  {
    hide Resolve, Components, LastLoaded, NodeBlocks, Sized, Avoids, ClearIn, LinkOf, Replacement;
    var t := Target(view, path);
    var k := LinkOf(view[t.parent].entries, t.child, 0);
    if s != "" {
      ResolveIsFold(view, 0, s);
      ResolveIsFold(view', 0, s);
      LinkNames(view[t.parent].entries, t.child);
      RemoveKeepsPaths(view, view', t.parent, k, t.child, 0, Components(s));
    }
  }

  lemma LinkNames(es: seq<DirEntry>, c: nat)
    ensures var k := LinkOf(es, c, 0);
            k < |es| ==> es[k].inodeIndex == c
  {
  }

  /** What a removal with a fresh cache comes to. */
  lemma RemovalSays(view: seq<Node>, view': seq<Node>, ino: seq<INode>, ino': seq<INode>, c: nat, p: nat,
                    xcaddr: nat, xcache: Block, xcaddr': nat, xcache': Block,
                    outcome: Outcome, valid: bool, gone: bool, lost: bool)
    requires c < |view| == |ino| && p < |view| && view[p].DirNode?
    requires Removal(view, view', ino, ino', c, p, xcaddr, xcache, xcaddr', xcache', outcome, valid, gone, lost)
    requires var k := LinkOf(view[p].entries, c, 0);
             k < |view[p].entries| && InReach(k) && FreshLast(view[p].entries, NodeBlocks(ino[p]), k, xcaddr, xcache)
    ensures outcome == Success && valid && gone && |view'| == |view| == |ino'| && OnlyThese(view, view', c, p)
    ensures GapFilled(view[p], view'[p], ino[p], ino'[p], LinkOf(view[p].entries, c, 0),
                      xcaddr, xcache, xcaddr', xcache')
  {
    hide GapFilled, FreshLast, LinkOf;
  }

  lemma LeafLink(vol: Volume)
    requires vol.Valid()
    ensures |vol.ino| == |vol.Nodes0()|
  {
    hide Target, Consistent, Kept;
    vol.Whole();
    RootLive(vol.h, vol.disk, vol.ino, vol.own, vol.live, vol.pos);
  }

  lemma NoPathIn(vol: Volume, c: nat, other: string)
    requires vol.Valid() && c !in vol.live
    ensures Target(vol.Nodes0(), other).Hit? ==> Target(vol.Nodes0(), other).child != c
  {
    hide Target, Consistent, Kept;
    vol.Whole();
    NoPathTo(vol.h, vol.disk, vol.ino, vol.own, vol.live, vol.pos, c, other);
  }

  method Find(vol: Volume, path: string) returns (found: nat)
    requires vol.Valid()
    modifies vol
    ensures vol.Valid() && vol.Nodes0() == old(vol.Nodes0()) && vol.h == old(vol.h)
    ensures if Target(old(vol.Nodes0()), path).Hit?
            then vol.outcome == Success && found == Target(old(vol.Nodes0()), path).child
            else vol.outcome != Success
  {
    hide Consistent, Resolve, ICacheOk, DCacheOk, XCacheOk, Kept;
    var parent;
    found, parent := vol.FindFile(path, 0);
  }

  /** Mounting the disk again gives back the volume that was in memory. */
  method Remount(vol: Volume)
    requires vol.Valid()
    modifies vol
    ensures vol.Valid() && vol.outcome == Success
    ensures vol.h == old(vol.h) && vol.disk == old(vol.disk) && vol.Nodes0() == old(vol.Nodes0())
  {
    hide Consistent, ICacheOk, DCacheOk, XCacheOk, Kept, View;
    vol.Whole();
    MountShape(vol);
    vol.LoadVolume(vol.h, vol.ino, vol.own, vol.live, vol.pos);
  }

  lemma MountShape(vol: Volume)
    requires vol.Owning()
    ensures vol.Shaped()
  {
    hide Kept;
    KeptRoom(vol.h, vol.disk, vol.own, vol.InCaches(), Upkeep(vol.h.nextInode, vol.h.nextInode, vol.solid));
  }
}
