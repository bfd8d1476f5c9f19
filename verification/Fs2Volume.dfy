/** kernel/fs2.c: the mounted volume with its three one-block caches. */
module Fs2Volume {
  import opened Common
  import opened Fs2Layout
  import opened Fs2State
  import opened Fs2Path
  import opened Fs2Update
  import opened Fs2Dirs
  import opened Fs2Kept
  import opened Fs2Tree

  class Volume {
    // fs2_volume_t (fs2.h:126-142), and the disk it is mounted on.
    var disk: seq<Block>
    var outcome: Outcome
    var h: HBlock
    var icindex: nat
    var icaddr: nat
    var icache: seq<INode>
    var dcaddr: nat
    var dcache: seq<DirEntry>
    var xcaddr: nat
    var xcache: Block

    // The inode table, the use of every allocated block, and the tree.
    ghost var ino: seq<INode>
    ghost var own: seq<Tag>
    ghost var live: set<nat>
    ghost var pos: seq<nat>

    // No region in use is empty.
    ghost var solid: bool

    // ------------------------------------------------------- load and save

    /** A request for a block the disk does not have is refused. */
    method RBlk(a: nat) returns (ok: bool, b: Block)
      ensures ok <==> a < |disk|
      ensures b == BlockAt(disk, a)
    {
      ok := a < |disk|;
      b := BlockAt(disk, a);
    }

    method WBlk(a: nat, b: Block) returns (ok: bool)
      modifies `disk
      ensures ok <==> a < |old(disk)|
      ensures disk == if ok then old(disk)[a := b] else old(disk)
    {
      ok := a < |disk|;
      if ok { disk := disk[a := b]; }
    }

    method SaveIblockC()
      modifies `disk, `outcome
      ensures outcome == if icaddr < |old(disk)| then Success else DiskWrErr
      ensures disk == if icaddr < |old(disk)| then old(disk)[icaddr := InodeBlock(icache)] else old(disk)
    {
      var ok := WBlk(icaddr, InodeBlock(icache));
      outcome := if ok then Success else DiskWrErr;
    }

    /** Bump allocation of rsz contiguous blocks. */
    method FindFreeRegion(rsz: nat, save: bool) returns (r: nat)
      modifies `h, `disk, `outcome
      ensures old(h).nextBlock + rsz > old(h).nblocks ==>
                r == 0 && outcome == DiskFull && h == old(h) && disk == old(disk)
      ensures old(h).nextBlock + rsz <= old(h).nblocks ==>
                && r == old(h).nextBlock
                && h == old(h).(nextBlock := old(h).nextBlock + rsz)
                && (!save ==> disk == old(disk) && outcome == Success)
                && (save && 0 < |old(disk)| ==> disk == old(disk)[0 := HeaderBlock(h)] && outcome == Success)
                && (save && |old(disk)| == 0 ==> disk == old(disk) && outcome == DiskWrErr)
    {
      var onb := h.nextBlock;
      var nnb := onb + rsz;
      if nnb > h.nblocks {
        outcome := DiskFull;
        return 0;
      }
      h := h.(nextBlock := nnb);
      outcome := Success;
      if save {
        var ok := WBlk(0, HeaderBlock(h));
        outcome := if ok then Success else DiskWrErr;
      }
      return onb;
    }

    /** Load inode block `ibindex` into icache, or allocate a region for it
        without loading anything.  Returns the block's address. */
    method GetIblock(ibindex: nat, saveH: bool) returns (addr: nat)
      requires HeaderOk(h, |disk|)
      modifies `h, `disk, `outcome, `icache
      ensures ibindex < |ITab(old(h))| ==>
                && h == old(h) && disk == old(disk) && addr == ITab(h)[ibindex]
                && outcome == (if addr < |disk| then Success else DiskRdErr)
                && (outcome == Success ==> icache == InodesOf(disk[addr]))
      ensures ibindex >= |ITab(old(h))| ==> icache == old(icache)
      ensures ibindex >= |ITab(old(h))| && outcome != Success ==>
                && outcome == RegionRefusal(h) && addr == 0 && h == old(h) && disk == old(disk) && !RegionSpace(h)
      ensures ibindex >= |ITab(old(h))| && outcome == Success ==>
                && RegionSpace(old(h)) && h.nextBlock == old(h).nextBlock + h.iregLen && 1 <= h.iregLen
                && NewIregion(old(h), h)
                && addr == old(h).nextBlock
                && disk == if saveH then old(disk)[0 := HeaderBlock(h)] else old(disk)
    {
      hide EntriesOf, InodesOf, BytesOf, Kept, Tree;
      var b, n, i := 0, 0, 0;
      assert FlatFrom(h.regStart, h.regLen, 0) == ITab(h);
      while i < h.separator && h.regStart[i] != 0
        invariant 0 <= i <= 800 && n <= ibindex
        invariant forall j :: 0 <= j < i ==> h.regStart[j] != 0
        invariant n + |FlatFrom(h.regStart, h.regLen, i)| == |ITab(h)|
        invariant At(ITab(h), ibindex) == At(FlatFrom(h.regStart, h.regLen, i), ibindex - n)
      {
        b := n + h.regLen[i];
        if ibindex < b {
          addr := h.regStart[i] + ibindex - n;
          var ok, blk := RBlk(addr);
          if ok { icache := InodesOf(blk); }
          outcome := if ok then Success else DiskRdErr;
          return;
        }
        n := b;
        i := i + 1;
      }
      if i == h.separator {
        outcome := HBlockFull;
        return 0;
      }
      ghost var h0 := h;
      addr := FindFreeRegion(h.iregLen, false);
      if addr == 0 { return; }
      h := h.(regStart := h.regStart[i := addr], regLen := h.regLen[i := h.iregLen]);
      FlatAppend(h0.regStart, h0.regLen, i, 0, addr, h0.iregLen);
      ZeroTailAppend(h0.regStart, i, addr);
      outcome := Success;
      if saveH {
        var ok := WBlk(0, HeaderBlock(h));
        outcome := if ok then Success else DiskWrErr;
      }
    }

    /** The cached wrapper: save the cached block if told to, then load. */
    method GetIblockC(ibindex: nat, saveH: bool, saveChanges: bool)
      requires HeaderOk(h, |disk|)
      modifies `h, `disk, `outcome, `icindex, `icaddr, `icache
      ensures ibindex == old(icindex) ==>
                && outcome == Success && h == old(h) && disk == old(disk)
                && icindex == old(icindex) && icaddr == old(icaddr) && icache == old(icache)
      ensures ibindex != old(icindex) && ibindex < |ITab(old(h))| && (saveChanges ==> old(icaddr) < |old(disk)|) ==>
                && h == old(h) && icindex == ibindex && icaddr == ITab(h)[ibindex]
                && disk == (if saveChanges then old(disk)[old(icaddr) := InodeBlock(old(icache))] else old(disk))
                && outcome == (if icaddr < |disk| then Success else DiskRdErr)
                && (outcome == Success ==> icache == InodesOf(disk[icaddr]))
      ensures ibindex != old(icindex) && ibindex >= |ITab(old(h))| && (saveChanges ==> old(icaddr) < |old(disk)|) ==>
                var saved := if saveChanges then old(disk)[old(icaddr) := InodeBlock(old(icache))] else old(disk);
                && icindex == ibindex && icache == old(icache)
                && (if outcome == Success
                    then RegionSpace(old(h)) && NewIregion(old(h), h) && icaddr == old(h).nextBlock
                         && h.nextBlock == old(h).nextBlock + h.iregLen && 1 <= h.iregLen
                         && disk == if saveH then saved[0 := HeaderBlock(h)] else saved
                    else outcome == RegionRefusal(h) && !RegionSpace(old(h))
                         && icaddr == 0 && h == old(h) && disk == saved)
      ensures ibindex != old(icindex) && saveChanges && old(icaddr) >= |old(disk)| ==>
                && outcome == DiskWrErr && h == old(h) && disk == old(disk)
                && icindex == old(icindex) && icaddr == old(icaddr) && icache == old(icache)
    {
      hide *;
      if ibindex != icindex {
        if saveChanges {
          SaveIblockC();
          if outcome != Success { return; }
        }
        icindex := ibindex;
        icaddr := GetIblock(ibindex, saveH);
        if outcome != Success { return; }
      }
      outcome := Success;
    }

    /** The same for a block in the table. */
    method SwitchIblock(ibindex: nat, saveChanges: bool)
      requires HeaderOk(h, |disk|) && ibindex < |ITab(h)|
      requires ibindex != icindex ==> ITab(h)[ibindex] < |disk| && (saveChanges ==> icaddr < |disk|)
      modifies `h, `disk, `outcome, `icindex, `icaddr, `icache
      ensures outcome == Success && h == old(h) && icindex == ibindex
      ensures ibindex == old(icindex) ==> disk == old(disk) && icaddr == old(icaddr) && icache == old(icache)
      ensures ibindex != old(icindex) ==>
                && icaddr == ITab(h)[ibindex] < |disk| && icache == InodesOf(disk[icaddr])
                && disk == if saveChanges then old(disk)[old(icaddr) := InodeBlock(old(icache))] else old(disk)
    {
      GetIblockC(ibindex, false, saveChanges);
    }

    /** If dry is set, just update the address. */
    method LoadDblockC(daddr: nat, dry: bool)
      modifies `outcome, `dcaddr, `dcache
      ensures dry || daddr == old(dcaddr) ==> outcome == Success && dcaddr == daddr && dcache == old(dcache)
      ensures !dry && daddr != old(dcaddr) && daddr < |disk| ==>
                outcome == Success && dcaddr == daddr && dcache == EntriesOf(disk[daddr])
      ensures !dry && daddr != old(dcaddr) && daddr >= |disk| ==>
                outcome == DiskRdErr && dcaddr == old(dcaddr) && dcache == old(dcache)
    {
      if daddr != dcaddr {
        if !dry {
          var ok, blk := RBlk(daddr);
          if !ok { outcome := DiskRdErr; return; }
          dcache := EntriesOf(blk);
        }
        dcaddr := daddr;
      }
      outcome := Success;
    }

    method SaveDblockC()
      modifies `disk, `outcome
      ensures outcome == if dcaddr < |old(disk)| then Success else DiskWrErr
      ensures disk == if dcaddr < |old(disk)| then old(disk)[dcaddr := DirBlock(dcache)] else old(disk)
    {
      var ok := WBlk(dcaddr, DirBlock(dcache));
      outcome := if ok then Success else DiskWrErr;
    }

    method LoadGpC(baddr: nat, dry: bool)
      modifies `outcome, `xcaddr, `xcache
      ensures dry || baddr == old(xcaddr) ==> outcome == Success && xcaddr == baddr && xcache == old(xcache)
      ensures !dry && baddr != old(xcaddr) && baddr < |disk| ==>
                outcome == Success && xcaddr == baddr && xcache == disk[baddr]
      ensures !dry && baddr != old(xcaddr) && baddr >= |disk| ==>
                outcome == DiskRdErr && xcaddr == old(xcaddr) && xcache == old(xcache)
      ensures old(Owning()) ==> Owning()
    {
      hide Kept;
      ghost var c, u := InCaches(), Upkeep(h.nextInode, h.nextInode, solid);
      if Owning() {
        KeptOther(h, disk, own, c, u, baddr, xcache);
        KeptOther(h, disk, own, c, u, baddr, BlockAt(disk, baddr));
      }
      if baddr != xcaddr {
        if !dry {
          var ok, blk := RBlk(baddr);
          if !ok { outcome := DiskRdErr; return; }
          xcache := blk;
        }
        xcaddr := baddr;
      }
      outcome := Success;
    }

    method SaveGpC()
      modifies `disk, `outcome
      ensures outcome == if xcaddr < |old(disk)| then Success else DiskWrErr
      ensures disk == if xcaddr < |old(disk)| then old(disk)[xcaddr := xcache] else old(disk)
    {
      var ok := WBlk(xcaddr, xcache);
      outcome := if ok then Success else DiskWrErr;
    }

    // ----------------------------------------------------------- invariant

    ghost function Nodes0(): seq<Node>
      reads `disk, `ino
    {
      View(disk, ino)
    }

    /** What the disk and the header copy in memory hold. */
    ghost predicate Sound()
      reads `h, `disk, `ino, `own, `live, `pos
    {
      Consistent(h, disk, ino, own, live, pos)
    }

    /** The three caches agree with the disk. */
    ghost predicate Coherent()
      reads `h, `disk, `ino, `own, `icindex, `icaddr, `icache, `dcaddr, `dcache, `xcaddr, `xcache
    {
      && ICacheOk(h, ino, icindex, icaddr, icache)
      && DCacheOk(disk, own, dcaddr, dcache)
      && XCacheOk(disk, own, xcaddr, xcache)
    }

    ghost function InCaches(): Caches
      reads `icindex, `icaddr, `icache, `dcaddr, `dcache, `xcaddr, `xcache
    {
      Caches(icindex, icaddr, icache, dcaddr, dcache, xcaddr, xcache)
    }

    /** The blocks have their owners, in the middle of an operation: the inodes
        [0, m) are on the disk, those of [0, n) in use. */
    ghost predicate Keeps(m: nat, n: nat)
      reads `h, `disk, `own, `solid, `icindex, `icaddr, `icache, `dcaddr, `dcache, `xcaddr, `xcache
    {
      Kept(h, disk, own, InCaches(), Upkeep(m, n, solid))
    }

    /** What holds between calls, failed ones included, even when the names no
        longer form a tree: every block has at most one owner. */
    ghost predicate Owning()
      reads `h, `disk, `own, `solid, `icindex, `icaddr, `icache, `dcaddr, `dcache, `xcaddr, `xcache
    {
      Keeps(h.nextInode, h.nextInode) && 1 <= h.nextInode && BlockAt(disk, 0) == HeaderBlock(h)
    }

    ghost predicate Valid()
      reads `h, `disk, `ino, `own, `live, `pos, `solid, `icindex, `icaddr, `icache, `dcaddr, `dcache, `xcaddr,
            `xcache
    {
      Sound() && Coherent() && Owning()
    }

    /** No directory in use lists an inode that is not. */
    predicate AllInUse()
      reads `h, `disk, `icindex, `icache
    {
      ListsInUse(h, disk, icindex, icache)
    }

    /** What a call may start from: a whole volume, or one whose directories list
        inodes in use at least. */
    ghost predicate Usable()
      reads `h, `disk, `ino, `own, `live, `pos, `solid, `icindex, `icaddr, `icache, `dcaddr, `dcache, `xcaddr, `xcache
    {
      Owning() && (Valid() || AllInUse())
    }

    lemma Whole()
      requires Valid()
      ensures Consistent(h, disk, ino, own, live, pos) && ICacheOk(h, ino, icindex, icaddr, icache)
      ensures DCacheOk(disk, own, dcaddr, dcache) && XCacheOk(disk, own, xcaddr, xcache)
      ensures Owning() && h.nextInode == |ino|
    {
      hide Owning, ICacheOk, DCacheOk, XCacheOk, HeaderOk, Tree, Owned, Nodes;
    }

    lemma NowValid()
      requires Consistent(h, disk, ino, own, live, pos) && ICacheOk(h, ino, icindex, icaddr, icache)
      requires DCacheOk(disk, own, dcaddr, dcache) && XCacheOk(disk, own, xcaddr, xcache) && Owning()
      ensures Valid()
    {
      hide Consistent, ICacheOk, DCacheOk, XCacheOk, Owning;
    }

    /** What the directories of a whole volume list is what its view shows. */
    lemma InUseSeen()
      requires Valid()
      ensures AllInUse() <==> ViewInUse(Nodes0())
    {
      hide Owning, DCacheOk, XCacheOk, HeaderOk, Tree, Owned, Nodes, ListsInUse, ViewInUse, NodeOnDisk, View;
      Whole();
      InodesCached(h, disk, ino, own, live, pos, icindex, icaddr, icache);
      InUseShows(h, disk, ino, icindex, icache);
    }

    /** A directory of the tree in hand. */
    lemma LiveDir(d: nat)
      requires Valid() && d in live
      ensures d < |ino| == h.nextInode && Sized(ino[d]) && Nodes0()[d] == NodeView(disk, ino[d])
      ensures ino[d].ftype.Dir? <==> NodeView(disk, ino[d]).DirNode?
      ensures Owning() && forall c :: c in live ==> c < h.nextInode
    {
      hide Owning, ICacheOk, DCacheOk, XCacheOk, Consistent, NodeView, Sized;
      Whole();
      LiveNode(h, disk, ino, own, live, pos, d);
      RootLive(h, disk, ino, own, live, pos);
    }

    /** Loading the inode block of an existing inode. */
    method LoadInode(i: nat)
      requires Owning() && i < h.nextInode
      modifies `h, `disk, `outcome, `icindex, `icaddr, `icache
      ensures Owning() && outcome == Success && h == old(h) && disk == old(disk)
      ensures icindex == i / 32 && icindex < |ITab(h)| && |icache| == 32
      ensures icache == if old(icindex) == i / 32 then old(icache) else InodesOf(BlockAt(disk, ITab(h)[i / 32]))
      ensures TableShape(icache[i % 32]) && NodeKept(own, i, icache[i % 32], solid)
      ensures icache[i % 32].ftype == NodeOnDisk(h, disk, i).ftype
      ensures old(Valid()) ==> Valid() && i < |ino| && icache[i % 32] == ino[i]
      ensures old(AllInUse()) ==> AllInUse() && NamesBelow(disk, icache[i % 32], h.nextInode)
    {
      hide Kept, Consistent, ICacheOk, DCacheOk, XCacheOk, NodeKept, NodeOnDisk, ListsInUse, NamesBelow, EntriesOf,
           InodesOf, FlatFrom, Tree;
      ghost var s, c, u := Valid(), InCaches(), Upkeep(h.nextInode, h.nextInode, solid);
      KeptTable(h, disk, own, c, u, i);
      if i / 32 != icindex { KeptLoad(h, disk, own, c, u, i / 32); }
      if s && i / 32 != icindex { StoredInodes(h, disk, ino, own, live, pos, i / 32); }
      LoadedInUse(h, disk, icindex, icache, i / 32);
      SwitchIblock(i / 32, false);
      KeptInode(h, disk, own, InCaches(), u, i);
      CachedInUse(h, disk, icindex, icache, i);
      if s { CachedInode(h, disk, ino, own, live, pos, icindex, icaddr, icache, i); }
    }

    /** Load the next block of a directory and move the walk on; the same lines
        stand in find_in_dir, unlink and ls.  A wiped directory seems to begin
        with block 0. */
    method WalkDblock(dinode: INode, ghost d: nat, ghost b: nat, i: nat, j: nat) returns (i': nat, j': nat)
      requires Owning() && NodeKept(own, d, dinode, solid) && dinode.ftype.Dir?
      requires WalkAt(dinode.regStart, dinode.regLen, b, i, j)
      requires b < |NodeBlocks(dinode)| || (b == 0 && dinode.regStart[0] == 0)
      modifies `outcome, `dcaddr, `dcache
      ensures outcome == Success && Owning() && dcaddr == At(NodeBlocks(dinode), b) < |disk|
      ensures i' <= 23 && (b < |NodeBlocks(dinode)| ==> WalkAt(dinode.regStart, dinode.regLen, b + 1, i', j'))
      ensures (i' == 23 || dinode.regStart[i'] == 0) <==> b + 1 >= |NodeBlocks(dinode)|
      ensures b < |NodeBlocks(dinode)| ==> dcache == EntriesOf(disk[dcaddr])
    {
      hide Kept, WalkAt, FlatFrom, Flat, NodeBlocks, OwnsBlocks, DCacheOk, NamesNone, EntriesOf;
      ghost var c, u := InCaches(), Upkeep(h.nextInode, h.nextInode, solid);
      ghost var a := At(NodeBlocks(dinode), b);
      DirWalk(own, d, dinode, solid, b, i, j);
      KeptDirLoad(h, disk, own, c, u, a);
      LoadDblockC(dinode.regStart[i] + j, false);
      i', j' := i, j + 1;
      if j' == dinode.regLen[i] { i', j' := i + 1, 0; }
    }

    /** The search loop of fs2_find_in_dir_r over the blocks of one directory. */
    method ScanDir(dinode: INode, name: string, ghost d: nat) returns (child: nat)
      requires Owning() && NodeKept(own, d, dinode, solid) && dinode.ftype.Dir?
      modifies `outcome, `dcaddr, `dcache
      ensures Owning() && (outcome == Success || outcome == NoFile)
      ensures outcome == Success && NamesBelow(disk, dinode, h.nextInode) ==> child < h.nextInode
      ensures Sized(dinode) ==>
                Lookup(NodeView(disk, dinode), name) == if outcome == Success then Found(child) else Missing(outcome)
    {
      hide Owning, WalkAt, NodeKept, Sized, NodeBlocks, NodeView, NameMatches, NamesOk, EntriesOf, Lookup, NamesBelow;
      child := NO_BLOCK;
      ghost var blocks := NodeBlocks(dinode);
      ghost var es := DirEntries(disk, blocks, dinode.eof);
      ScanStart(disk, own, d, dinode, solid);
      var k, i, j := 0, 0, 0;
      ghost var b := 0;
      while k < dinode.eof
        invariant 0 <= k <= dinode.eof && Owning() && 128 * b - 128 < k <= 128 * b && b <= |blocks|
        invariant WalkAt(dinode.regStart, dinode.regLen, b, i, j)
        invariant k < 128 * b ==> b < |blocks| && dcache == EntriesOf(BlockAt(disk, blocks[b - 1]))
        invariant NoMatch(es, name, k)
      {
        BlockIndex(k, b);
        if k % 128 == 0 {
          i, j := WalkDblock(dinode, d, b, i, j);
          if i == 23 || dinode.regStart[i] == 0 {
            LookupStops(es, |blocks|, name, k, b);
            outcome := NoFile;
            return;
          }
          b := b + 1;
        }
        CachedEntries(k % 128);
        assert dcache[k % 128] == es[k];
        if NameMatches(dcache[k % 128].name, name) {
          LookupStops(es, |blocks|, name, k, b);
          NamedEntry(disk, dinode, k, h.nextInode);
          outcome := Success;
          return dcache[k % 128].inodeIndex;
        }
        k := k + 1;
      }
      LookupStops(es, |blocks|, name, k, b);
      outcome := NoFile;
    }

    /** What entry m of the cached directory block may name. */
    lemma CachedEntries(m: nat)
      requires Owning() && m < 128
      ensures |dcache| == 128 && NamesOk(dcache)
      ensures dcaddr == 0 && m < 2 ==> dcache[m].inodeIndex == 0 || h.nextInode <= dcache[m].inodeIndex
    {
      hide HeaderOk, OwnsInodes, KeptDisk, KeptCache;
      FewInodes(h, |disk|);
    }

    /** Search directory diindex for a name of nchars characters. */
    method FindInDirR(diindex: nat, name: string, ghost s: bool) returns (child: nat)
      requires Owning() && diindex < h.nextInode && if s then Valid() && diindex in live else AllInUse()
      modifies `outcome, `icindex, `icaddr, `icache, `dcaddr, `dcache, `h, `disk
      ensures Owning() && h == old(h) && disk == old(disk) && icindex == diindex / 32 < |ITab(h)|
      ensures old(AllInUse()) ==> AllInUse()
      ensures outcome == Success ==> child < h.nextInode && NodeOnDisk(h, disk, diindex).ftype.Dir?
      ensures s ==>
                && Valid()
                && match Lookup(Nodes0()[diindex], name)
                   case Found(c) => outcome == Success && child == c && c in live
                   case Missing(o) => outcome == o != Success
    {
      hide Valid, Owning, Consistent, ICacheOk, DCacheOk, XCacheOk, NodeOk, Sized, Owns, NodeKept, NodeOnDisk,
           DirEntries, FileBytes, FirstMatch, Searched, ListsInUse, NamesBelow, EntriesOf, InodesOf, FlatFrom, Tree;
      if s { LiveDir(diindex); }
      LoadInode(diindex);
      if s { Whole(); }
      var dinode := icache[diindex % 32];
      if dinode.ftype != Dir {
        outcome := BadFType;
        return NO_BLOCK;
      }
      child := ScanDir(dinode, name, diindex);
      Coherence();
      if s {
        NowValid();
        LookupLive(h, disk, ino, own, live, pos, diindex, name);
      }
    }

    lemma AnyRoot()
      requires Owning()
      ensures 1 <= h.nextInode
      ensures Valid() ==> 0 in live && |Nodes0()| == h.nextInode && forall i :: i in live ==> i < h.nextInode
    {
      hide Keeps, Consistent, View, ICacheOk, DCacheOk, XCacheOk;
      if Valid() {
        Whole();
        RootLive(h, disk, ino, own, live, pos);
      }
    }

    /** The loop of fs2_find_file over the components of a path. */
    method WalkPath(path: string, ghost s: bool) returns (child: nat, parent: nat)
      requires Owning() && path != "" && icindex < |ITab(h)| && 1 <= h.nextInode
      requires if s then Valid() && 0 in live && |Nodes0()| == h.nextInode && forall i :: i in live ==> i < h.nextInode
               else AllInUse()
      modifies `outcome, `icindex, `icaddr, `icache, `dcaddr, `dcache, `h, `disk
      ensures Owning() && h == old(h) && disk == old(disk) && icindex < |ITab(h)|
      ensures old(AllInUse()) ==> AllInUse()
      ensures outcome == Success ==>
                child < h.nextInode && parent < h.nextInode && NodeOnDisk(h, disk, parent).ftype.Dir?
      ensures s ==> Valid()
      ensures s ==> match Resolve(Nodes0(), 0, path)
                    case Hit(c, p) => outcome == Success && child == c && parent == p && c in live && p in live
                    case Miss(o) => outcome == o != Success
    {
      hide *;
      ghost var view := Nodes0();
      var dir: nat := 0;
      var cursor, i := 0, 0;
      while true
        invariant 0 <= cursor <= |path| && dir < h.nextInode
        invariant Owning() && h == old(h) && disk == old(disk) && icindex < |ITab(h)|
        invariant old(AllInUse()) ==> AllInUse()
        invariant s ==> Valid() && dir in live && Resolve(view, 0, path) == Resolve(view, dir, path[cursor..])
        decreases |path| - cursor
      {
        ghost var rest := path[cursor..];
        i := ScanComponent(path, cursor);
        if s { ResolveStep(view, dir, rest); }
        if i > 28 {
          outcome := InvalidPath;
          return NO_BLOCK, NO_BLOCK;
        }
        child := FindInDirR(dir, path[cursor..cursor + i], s);
        assert path[cursor..cursor + i] == rest[..i];
        if outcome != Success {
          return NO_BLOCK, NO_BLOCK;
        }
        if cursor + i == |path| {
          outcome := Success;
          return child, dir;
        }
        i := ScanSlashes(path, cursor, i);
        dir, cursor := child, cursor + i;
      }
    }

    /** Inode index of the file at `path`, and of the directory holding it.  For
        the empty path, which is the root, the parent is left as it was; it means
        nothing if the file is not found. */
    method FindFile(path: string, putparent: nat) returns (child: nat, parent: nat)
      requires Usable()
      modifies `outcome, `icindex, `icaddr, `icache, `dcaddr, `dcache, `h, `disk
      ensures Usable() && h == old(h) && disk == old(disk) && (old(AllInUse()) ==> AllInUse())
      ensures path == "" ==> outcome == Success && child == 0 && parent == putparent && icindex == old(icindex)
      ensures path != "" ==> icindex < |ITab(h)|
      ensures outcome == Success ==> child < h.nextInode
      ensures outcome == Success && path != "" ==> parent < h.nextInode && NodeOnDisk(h, disk, parent).ftype.Dir?
      ensures old(Valid()) ==> Valid()
      ensures old(Valid()) && path != "" ==>
                match Resolve(Nodes0(), 0, path)
                case Hit(c, p) => outcome == Success && child == c && parent == p && c in live && p in live
                case Miss(o) => outcome == o != Success
    {
      hide Valid, Owning, Resolve, NodeOnDisk, NodeKept, View;
      parent := putparent;
      AnyRoot();
      if |path| == 0 {
        outcome := Success;
        return 0, putparent;
      }
      ghost var s := Valid();
      LoadInode(0);
      child, parent := WalkPath(path, s);
    }

    // ------------------------------------------------------------- reading

    /** Resolve a path and cache the inode it names. */
    method OpenInode(path: string) returns (i: nat)
      requires Usable()
      modifies `outcome, `icindex, `icaddr, `icache, `dcaddr, `dcache, `h, `disk
      ensures Usable() && h == old(h) && disk == old(disk) && (old(AllInUse()) ==> AllInUse())
      ensures outcome == Success ==>
                && i < h.nextInode && icindex == i / 32 < |ITab(h)| && |icache| == 32
                && NodeKept(own, i, icache[i % 32], solid) && TableShape(icache[i % 32])
      ensures old(Valid()) ==> Valid()
      ensures old(Valid()) && Target(Nodes0(), path).Miss? ==> outcome == Target(Nodes0(), path).why != Success
      ensures old(Valid()) && Target(Nodes0(), path).Hit? ==>
                && i == Target(Nodes0(), path).child && i in live && outcome == Success
                && i < |ino| && |icache| == 32 && icache[i % 32] == ino[i]
    {
      hide Valid, Owning, Resolve, NodeKept, NodeOnDisk, View;
      var parent;
      AnyRoot();
      i, parent := FindFile(path, 0);
      if outcome != Success { return; }
      LoadInode(i);
    }

    /** The loop of fs2_read over whole blocks, and the partial block after it. */
    method ReadRest(inode: INode, blkind0: nat, cursor: nat, rcount0: nat, rbytes: nat, first: seq<Byte>, ghost i: nat,
                    ghost s: bool)
      returns (n: nat, out: seq<Byte>)
      requires Owning() && TableShape(inode) && 0 < rcount0 == |first| < rbytes
      requires s ==>
                && Reads(inode, i) && cursor + rbytes <= inode.eof && outcome == Success
                && cursor + rcount0 == 4096 * (blkind0 + 1) && blkind0 < |NodeBlocks(inode)|
                && first == FileBytes(disk, NodeBlocks(inode), Shown(inode))[cursor..cursor + rcount0]
      modifies `outcome, `xcaddr, `xcache
      ensures Owning() && n == |out| <= rbytes
      ensures s ==>
                && XCacheOk(disk, own, xcaddr, xcache) && outcome == Success
                && n == Delivered(rbytes, cursor, |NodeBlocks(inode)|)
                && Agrees(out, FileBytes(disk, NodeBlocks(inode), Shown(inode)), cursor)
    {
      hide Owning, XCacheOk, Owns, FlatFrom, Flat, ByteAt, NodeBlocks, BytesOf, FileBytes;
      var blkind: nat, rcount: nat := blkind0, rcount0;
      out := first;
      ghost var all, cap := FileBytes(disk, NodeBlocks(inode), Shown(inode)), |NodeBlocks(inode)|;
      if s { HeaderCached(inode, i); }
      while rbytes - rcount >= 4096
        invariant 0 <= rcount == |out| <= rbytes && Owning()
        invariant s ==>
                    && Reads(inode, i) && outcome == Success && cursor + rcount == 4096 * (blkind + 1) <= |all|
                    && blkind < cap && out == all[cursor..cursor + rcount]
      {
        blkind := blkind + 1;
        var blk := FindBlk(inode.regStart, inode.regLen, 23, blkind);
        if s && blkind < cap { NextBlock(disk, own, i, inode, xcaddr, xcache, blkind, 0, 4096); }
        if blk == 0 { return rcount, out; }
        LoadGpC(blk, false);
        if outcome != Success { return rcount, out; }
        if s { SliceJoin(all, cursor, cursor + rcount, cursor + rcount + 4096); }
        out := out + BytesOf(xcache)[0..4096];
        rcount := rcount + 4096;
      }
      if rcount == rbytes { return rcount, out; }
      n, out := ReadTail(inode, blkind + 1, cursor, rcount, rbytes, out, i, s);
    }

    /** The last partial block.  If the file has none there, it is read from block 0. */
    method ReadTail(inode: INode, blkind: nat, cursor: nat, rcount: nat, rbytes: nat, front: seq<Byte>, ghost i: nat,
                    ghost s: bool)
      returns (n: nat, out: seq<Byte>)
      requires Owning() && TableShape(inode) && rcount == |front| < rbytes < rcount + 4096
      requires s ==>
                && Reads(inode, i) && outcome == Success
                && cursor + rbytes <= inode.eof && cursor + rcount == 4096 * blkind <= 4096 * |NodeBlocks(inode)|
                && front == FileBytes(disk, NodeBlocks(inode), Shown(inode))[cursor..cursor + rcount]
      modifies `outcome, `xcaddr, `xcache
      ensures Owning() && n == |out| <= rbytes
      ensures s ==>
                && n == rbytes && XCacheOk(disk, own, xcaddr, xcache) && outcome == Success
                && Agrees(out, FileBytes(disk, NodeBlocks(inode), Shown(inode)), cursor)
    {
      hide Owning, XCacheOk, Owns, FlatFrom, Flat, ByteAt, NodeBlocks, BytesOf, FileBytes;
      ghost var all := FileBytes(disk, NodeBlocks(inode), Shown(inode));
      var blk := FindBlk(inode.regStart, inode.regLen, 23, blkind);
      if s && blkind < |NodeBlocks(inode)| {
        NextBlock(disk, own, i, inode, xcaddr, xcache, blkind, 0, rbytes - rcount);
        SliceJoin(all, cursor, cursor + rcount, cursor + rbytes);
      } else if s {
        HeaderCached(inode, i);
      }
      LoadGpC(blk, false);
      if outcome != Success { return rcount, front; }
      return rbytes, front + BytesOf(xcache)[0..rbytes - rcount];
    }

    /** A file inode whose bytes the disk and the general purpose cache agree on. */
    ghost predicate Reads(inode: INode, i: nat)
      reads `disk, `own, `xcaddr, `xcache
    {
      && 0 < |own| <= |disk| < NO_BLOCK && own[0] == HeaderTag && XCacheOk(disk, own, xcaddr, xcache)
      && TableShape(inode) && Owns(own, i, inode) && inode.ftype.File?
    }

    /** The general purpose cache may be put on block 0. */
    lemma HeaderCached(inode: INode, i: nat)
      requires Reads(inode, i)
      ensures NodeBlocks(inode) == Flat(inode.regStart, inode.regLen)
      ensures forall b :: XCacheOk(disk, own, 0, b)
    {
    }

    /** The copying part of fs2_read, on an inode already in hand. */
    method ReadBlocks(inode: INode, nbytes: nat, cursor: nat, ghost i: nat, ghost s: bool)
      returns (n: nat, out: seq<Byte>)
      requires Owning() && TableShape(inode) && (s ==> Reads(inode, i) && outcome == Success)
      modifies `outcome, `xcaddr, `xcache
      ensures Owning() && n == |out| <= nbytes
      ensures s ==>
                && XCacheOk(disk, own, xcaddr, xcache) && outcome == Success
                && n == Delivered(Readable(inode.eof, cursor, nbytes), cursor, |NodeBlocks(inode)|)
                && (cursor <= Shown(inode) ==>
                      Agrees(out, FileBytes(disk, NodeBlocks(inode), Shown(inode)), cursor))
    {
      hide Owning, XCacheOk, Owns, FlatFrom, Flat, ByteAt, NodeBlocks, BytesOf, FileBytes;
      n, out := 0, [];
      var maxbytes := inode.eof - cursor;
      if maxbytes <= 0 { return; }
      var blkind := cursor / 4096;
      if s { HeaderCached(inode, i); }
      var blk := FindBlk(inode.regStart, inode.regLen, 23, blkind);
      var rbytes := if nbytes < maxbytes then nbytes else maxbytes;
      var maxb1 := 4096 - cursor % 4096;
      var read1 := if rbytes > maxb1 then maxb1 else rbytes;
      if s && blkind < |NodeBlocks(inode)| {
        NextBlock(disk, own, i, inode, xcaddr, xcache, blkind, cursor % 4096, read1);
      }
      if blk == 0 { return; }
      LoadGpC(blk, false);
      if outcome != Success { return; }
      out := BytesOf(xcache)[cursor % 4096..cursor % 4096 + read1];
      if read1 == rbytes { return read1, out; }
      n, out := ReadRest(inode, blkind, cursor, read1, rbytes, out, i, s);
    }

    /** fs2_read: the bytes from `cursor` on, as many as asked for and there are.  A
        file that ends behind its blocks may give more bytes than it holds. */
    method Read(path: string, nbytes: nat, cursor: nat) returns (n: int, out: seq<Byte>)
      requires Usable()
      modifies `outcome, `icindex, `icaddr, `icache, `dcaddr, `dcache, `xcaddr, `xcache, `h, `disk
      ensures Usable() && h == old(h) && disk == old(disk) && n <= nbytes
      ensures old(Valid()) ==> Valid()
      ensures old(Valid()) && Target(Nodes0(), path).Miss? ==> n == -1 && outcome == Target(Nodes0(), path).why
      ensures old(Valid()) && Target(Nodes0(), path).Hit? ==>
                var c := Target(Nodes0(), path).child;
                && c in live && c < |Nodes0()| == |ino|
                && (Nodes0()[c].DirNode? ==> n == -1 && outcome == BadFType)
                && (Nodes0()[c].FileNode? ==>
                      && outcome == Success && n == |out|
                      && n == Delivered(Readable(ino[c].eof, cursor, nbytes), cursor, |NodeBlocks(ino[c])|)
                      && (cursor <= |Nodes0()[c].bytes| ==> Agrees(out, Nodes0()[c].bytes, cursor))
                      && (ino[c].eof == |Nodes0()[c].bytes| ==> n == Readable(|Nodes0()[c].bytes|, cursor, nbytes)))
    {
      hide Valid, Owning, NodeOk, Sized, Owns, XCacheOk, Resolve, ICacheOk, DCacheOk, Consistent, ByteAt, NodeBlocks,
           FileBytes, DirEntries, AllInUse, EntriesOf, InodesOf, FlatFrom, Tree;
      ghost var s := Valid();
      var i := OpenInode(path);
      if outcome != Success { return -1, []; }
      if s {
        Whole();
        LiveNode(h, disk, ino, own, live, pos, i);
      }
      var inode := icache[i % 32];
      if inode.ftype != File {
        outcome := BadFType;
        return -1, [];
      }
      n, out := ReadBlocks(inode, nbytes, cursor, i, s);
      if s { NowValid(); }
    }

    // ------------------------------------------------------------- writing

    /** fs2_grow_file: one more region of rsz blocks for the cached inode, in
        slot `at` of its table. */
    method GrowFile(slot: nat, rsz: nat) returns (blk0: nat, ghost at: nat)
      requires slot < |icache| && TableShape(icache[slot]) && 0 < h.nextBlock && 0 < |disk|
      modifies `h, `disk, `outcome, `icache
      ensures outcome == Success ==>
                Grown(old(h), old(disk), old(icache), h, disk, icache, slot, at, rsz) && blk0 == old(h).nextBlock
      ensures outcome != Success ==>
                && blk0 == 0 && h == old(h) && disk == old(disk) && icache == old(icache)
                && outcome == GrowthRefusal(icache[slot])
                && !(FreeSlot(old(icache)[slot]) && old(h).nextBlock + rsz <= old(h).nblocks)
    {
      var inode := icache[slot];
      var i := 0;
      while i < 23 && inode.regStart[i] != 0
        invariant i <= 23 && forall j :: 0 <= j < i ==> inode.regStart[j] != 0
      {
        i := i + 1;
      }
      at := i;
      if i == 23 {
        outcome := FileFull;
        return 0, at;
      }
      blk0 := FindFreeRegion(rsz, true);
      if blk0 == 0 || outcome != Success { return 0, at; }
      inode := inode.(regStart := inode.regStart[i := blk0], regLen := inode.regLen[i := rsz]);
      icache := icache[slot := inode];
      outcome := Success;
    }

    /** The cached inode a write goes to. */
    ghost predicate InHand(i: nat)
      reads `h, `disk, `own, `solid, `icindex, `icaddr, `icache, `dcaddr, `dcache, `xcaddr, `xcache
    {
      && Owning() && i < h.nextInode && i / 32 == icindex < |ITab(h)|
      && |icache| == 32 && TableShape(icache[i % 32]) && icache[i % 32].ftype.File?
    }

    lemma Coherence()
      requires Owning()
      ensures DCacheOk(disk, own, dcaddr, dcache)
    {
      hide HeaderOk, OwnsInodes, KeptDisk, KeptCache, DCacheOk;
    }

    lemma OwnParts()
      requires Owning()
      ensures Keeps(h.nextInode, h.nextInode) && 1 <= h.nextInode && BlockAt(disk, 0) == HeaderBlock(h)
    {
      hide Keeps;
    }

    lemma HandParts(i: nat)
      requires InHand(i)
      ensures Owning()
      ensures Keeps(h.nextInode, h.nextInode) && 1 <= h.nextInode && BlockAt(disk, 0) == HeaderBlock(h)
      ensures i < h.nextInode && i / 32 == icindex < |ITab(h)| && |icache| == 32 && TableShape(icache[i % 32])
      ensures NodeKept(own, i, icache[i % 32], solid) && icache[i % 32].ftype.File?
      ensures 0 < |own| == h.nextBlock <= |disk| && 1 <= h.fregLen
    {
      hide Kept, NodeKept;
      KeptInode(h, disk, own, InCaches(), Upkeep(h.nextInode, h.nextInode, solid), i);
    }

    lemma NowInHand(i: nat)
      requires Keeps(h.nextInode, h.nextInode) && 1 <= h.nextInode && BlockAt(disk, 0) == HeaderBlock(h)
      requires i < h.nextInode && i / 32 == icindex < |ITab(h)|
      requires |icache| == 32 && TableShape(icache[i % 32]) && icache[i % 32].ftype.File?
      ensures InHand(i) && Owning()
    {
      hide Keeps;
    }

    /** A write to file i has put the bytes e into its blocks; disk0 is the disk
        before the write. */
    ghost predicate Writing(i: nat, e: seq<Byte>, disk0: seq<Block>)
      reads `h, `disk, `ino, `own, `live, `pos, `icindex, `icaddr, `icache, `dcaddr, `dcache, `xcaddr, `xcache
    {
      && WriteState(h, disk, ino, own, InCaches(), i, e)
      && OthersSame(disk0, disk, ino, i)
      && Tree(ino, View(disk0, ino), live, pos)
    }

    /** Find block `blkind` of file i, growing the file by rsz blocks if it has
        none there; `s` says that the write began in a whole volume. */
    method BlockForWrite(slot: nat, blkind: nat, rsz: nat, ghost i: nat, ghost e: seq<Byte>, ghost disk0: seq<Block>,
                         ghost s: bool)
      returns (blk: nat, ok: bool)
      requires InHand(i) && slot == i % 32 && (s ==> Writing(i, e, disk0))
      requires solid && rsz == 0 ==> !FreeSlot(icache[slot]) || blkind < |NodeBlocks(icache[slot])|
      modifies `h, `disk, `outcome, `icache, `own
      ensures InHand(i) && h.fregLen == old(h).fregLen && |disk| == |old(disk)| && (s ==> Writing(i, e, disk0))
      ensures ok ==> blk != 0 && (blk < |own| ==> own[blk].FileTag?)
      ensures !ok ==>
                && outcome == GrowthRefusal(icache[slot])
                && h == old(h) && disk == old(disk) && icache == old(icache) && own == old(own)
      ensures blkind < |NodeBlocks(old(icache)[slot])| ==>
                && ok && h == old(h) && icache == old(icache) && blk == NodeBlocks(icache[slot])[blkind]
                && blk < |disk|
      ensures blkind >= |NodeBlocks(old(icache)[slot])| ==>
                && (ok <==> FreeSlot(old(icache)[slot]) && old(h).nextBlock + rsz <= old(h).nblocks)
                && (ok ==> blk == old(h).nextBlock && (s ==> Grew(old(h), old(icache)[slot], h, icache[slot], rsz)))
    {
      hide InHand, Writing, Owning, NodeKept, NodeBlocks, Flat, Grew;
      ok := true;
      HandParts(i);
      FileBlockKept(own, i, icache[slot], solid, blkind);
      blk := FindBlk(icache[slot].regStart, icache[slot].regLen, 23, blkind);
      if blk == 0 { blk, ok := GrowForWrite(slot, rsz, i, e, disk0, s); }
    }

    /** The growth step of a write. */
    method GrowForWrite(slot: nat, rsz: nat, ghost i: nat, ghost e: seq<Byte>, ghost disk0: seq<Block>, ghost s: bool)
      returns (blk: nat, ok: bool)
      requires InHand(i) && slot == i % 32 && (solid && rsz == 0 ==> !FreeSlot(icache[slot]))
      requires s ==> Writing(i, e, disk0)
      modifies `h, `disk, `outcome, `icache, `own
      ensures InHand(i) && h.fregLen == old(h).fregLen && |disk| == |old(disk)| && (s ==> Writing(i, e, disk0))
      ensures ok <==> FreeSlot(old(icache)[slot]) && old(h).nextBlock + rsz <= old(h).nblocks
      ensures ok ==>
                && blk != 0 && blk == old(h).nextBlock && (blk < |own| ==> own[blk].FileTag?)
                && (s ==> Grew(old(h), old(icache)[slot], h, icache[slot], rsz))
      ensures !ok ==>
                && outcome == GrowthRefusal(icache[slot])
                && h == old(h) && disk == old(disk) && icache == old(icache) && own == old(own)
    {
      hide InHand, Owning, WriteState, Grown, Tree, Kept, NodeKept, NodeBlocks, SolidNode, TwoFree, EntriesOf,
           InodesOf, FlatFrom;
      ghost var c, h0, disk1, own0, u := InCaches(), h, disk, own, Upkeep(h.nextInode, h.nextInode, solid);
      HandParts(i);
      ghost var at;
      blk, at := GrowFile(slot, rsz);
      if outcome != Success { return blk, false; }
      SlotGiven(h0, disk1, own0, c.icache, i, h, disk, icache, at, rsz, solid);
      if s {
        WriteGrow(h0, disk1, ino, own0, c, i, e, h, disk, icache, at, rsz);
        OthersLater(disk0, disk1, disk, ino, i);
      }
      GrownInode(h0, disk1, own0, c, u, i, h, disk, icache, at, rsz);
      own := own + Tags(File, i, |NodeBlocks(c.icache[slot])|, rsz);
      NowInHand(i);
      return blk, true;
    }

    /** Only an inode with an unused slot is given a region. */
    lemma SlotGiven(h0: HBlock, disk0: seq<Block>, own0: seq<Tag>, icache0: seq<INode>, i: nat,
                    h1: HBlock, disk1: seq<Block>, icache1: seq<INode>, at: nat, rsz: nat, w: bool)
      requires |icache0| == 32 && NodeKept(own0, i, icache0[i % 32], w) && TableShape(icache0[i % 32])
      requires Grown(h0, disk0, icache0, h1, disk1, icache1, i % 32, at, rsz)
      ensures FreeSlot(icache0[i % 32])
    {
      hide Owns, Flat, FlatFrom;
    }

    /** Why nothing is stored in block blk behind the end of the disk: it cannot be
        read, unless it is cached or need not be. */
    static function StoreRefusal(dry: bool, cached: nat, blk: nat): (o: Outcome)
      ensures o == DiskRdErr || o == DiskWrErr
    {
      if dry || cached == blk then DiskWrErr else DiskRdErr
    }

    /** Load block blk (or only take its address), copy a chunk in, and save it: at
        its place behind the bytes e, or aside from them. */
    method PutChunk(blk: nat, off: nat, chunk: seq<Byte>, dry: bool, ghost i: nat, ghost blkind: nat,
                    ghost e: seq<Byte>, ghost disk0: seq<Block>, ghost exact: bool, ghost s: bool)
      requires off + |chunk| <= 4096 && InHand(i) && blk != 0 && (blk < |own| ==> own[blk].FileTag?)
      requires s ==>
                && Writing(i, e, disk0) && (dry ==> off == 0)
                && if exact then
                     && |e| == 4096 * blkind + off && blkind < |NodeBlocks(icache[i % 32])|
                     && blk == NodeBlocks(icache[i % 32])[blkind]
                   else Aside(own, NodeBlocks(icache[i % 32]), e, blk, off)
      modifies `disk, `outcome, `xcaddr, `xcache
      ensures InHand(i) && (s ==> Writing(i, if exact then e + chunk else e, disk0))
      ensures if blk < |old(disk)| then outcome == Success && xcaddr == blk && HasChunk(xcache, off, chunk)
              else (s ==> !exact) && outcome == StoreRefusal(dry, old(xcaddr), blk)
    {
      hide InHand, Owning, WriteState, BytesOf, NodeView, NodeBlocks, Tree, Kept, Splice, OthersSame, Aside, HasChunk,
           EntriesOf, InodesOf, FlatFrom;
      ghost var c, u, disk1 := InCaches(), Upkeep(h.nextInode, h.nextInode, solid), disk;
      HandParts(i);
      if s { CachedBlock(h, disk, ino, own, c, i, e, blk); }
      LoadGpC(blk, dry);
      OwnParts();
      NowInHand(i);
      if outcome != Success { return; }
      if s && exact {
        ChunkPut(h, disk0, disk, ino, own, c, i, e, blkind, off, BytesOf(xcache), chunk);
      } else if s {
        AsideStored(h, disk0, disk, ino, own, c, i, e, blk, off, BytesOf(xcache), chunk);
      }
      KeptData(h, disk, own, c, u, blk, Splice(BytesOf(xcache), off, chunk));
      StoreChunk(off, chunk);
      NowInHand(i);
    }

    /** The chunk goes into the cached block, which is saved. */
    method StoreChunk(off: nat, chunk: seq<Byte>)
      requires off + |chunk| <= 4096
      modifies `disk, `outcome, `xcache
      ensures xcache == DataBlock(Splice(BytesOf(old(xcache)), off, chunk)) && HasChunk(xcache, off, chunk)
      ensures outcome == if xcaddr < |old(disk)| then Success else DiskWrErr
      ensures disk == if xcaddr < |old(disk)| then old(disk)[xcaddr := xcache] else old(disk)
    {
      hide BytesOf;
      xcache := DataBlock(Splice(BytesOf(xcache), off, chunk));
      SaveGpC();
    }

    /** A block of data with the chunk at `off`. */
    predicate HasChunk(b: Block, off: nat, chunk: seq<Byte>) {
      b.DataBlock? && |b.bytes| == 4096 && off + |chunk| <= 4096 && b.bytes[off..off + |chunk|] == chunk
    }

    /** finish_write: record the new end of file and save the inode. */
    method FinishWrite(slot: nat, cursor: nat, wcount: nat, ghost i: nat, ghost e: seq<Byte>, ghost disk0: seq<Block>,
                       ghost s: bool)
      returns (n: nat)
      requires InHand(i) && slot == i % 32 && (s ==> Writing(i, e, disk0) && |e| <= cursor + wcount)
      modifies `disk, `outcome, `icache, `ino
      ensures n == wcount && Owning() && outcome == Success
      ensures s ==> Written(old(ino), disk0, i, e, cursor + wcount)
      ensures |icache| == 32 && (SolidNode(icache[slot]) <==> SolidNode(old(icache)[slot]))
    {
      hide WriteState, Consistent, Tree, Kept, ICacheOk, DCacheOk, XCacheOk, View, NodeOnDisk, OthersSame, NodeBlocks,
           NewFile, EntriesOf, InodesOf, FlatFrom;
      ghost var c, u := InCaches(), Upkeep(h.nextInode, h.nextInode, solid);
      KeptFinish(h, disk, own, c, u, i, cursor + wcount);
      icache := icache[slot := icache[slot].(eof := cursor + wcount)];
      if s {
        WriteFinish(h, disk0, disk, ino, own, live, pos, c, i, e, cursor + wcount, icache);
        ino := ino[i := icache[slot]];
      }
      SaveIblockC();
      n := wcount;
    }

    /** The outcome of a finished write: the volume is whole, file i begins with e
        and ends at `eof`, or where its blocks do, and all else is as it was. */
    ghost predicate Written(ino0: seq<INode>, disk0: seq<Block>, i: nat, e: seq<Byte>, eof: nat)
      reads this
    {
      && outcome == Success && Valid() && i < |ino0| && |icache| == 32 && icindex == i / 32
      && icache[i % 32].eof == eof && ino == ino0[i := icache[i % 32]]
      && NewFile(View(disk0, ino0), Nodes0(), i, e, Shown(icache[i % 32]))
    }

    /** What a write leaves that has been given a region of no blocks behind the end
        of the disk: the cached inode i has that region in use, its blocks hold e,
        and all else is as it was. */
    ghost predicate HollowLeft(ino0: seq<INode>, disk0: seq<Block>, i: nat, e: seq<Byte>)
      reads `h, `disk, `icindex, `icache
    {
      && i < h.nextInode && |icache| == 32 && icindex == i / 32
      && TableShape(icache[i % 32]) && !SolidNode(icache[i % 32])
      && Holds(disk, NodeBlocks(icache[i % 32]), e) && OthersSame(disk0, disk, ino0, i)
    }

    /** One block of a write: find or allocate it, then store the chunk. */
    method StoreBlock(slot: nat, blkind: nat, rsz: nat, off: nat, chunk: seq<Byte>, dry: bool,
                      ghost i: nat, ghost e: seq<Byte>, ghost disk0: seq<Block>, ghost s: bool)
      returns (ok: bool)
      requires InHand(i) && slot == i % 32 && off + |chunk| <= 4096 && (dry ==> off == 0)
      requires solid && rsz == 0 ==> !FreeSlot(icache[slot]) || blkind < |NodeBlocks(icache[slot])|
      requires s ==> Writing(i, e, disk0) && |e| <= 4096 * |NodeBlocks(icache[slot])| && |e| <= 4096 * blkind + off
      modifies `h, `disk, `outcome, `icache, `own, `xcaddr, `xcache
      ensures InHand(i) && h.fregLen == old(h).fregLen
      ensures s ==> BlockStored(old(h), old(icache)[slot], blkind, rsz, off, chunk, i, e, disk0, ok)
      ensures !ok ==> if Granted(old(h), old(icache)[slot], blkind, rsz)
                      then |old(disk)| <= old(h).nextBlock
                           && outcome == StoreRefusal(dry, old(xcaddr), old(h).nextBlock)
                      else outcome == GrowthRefusal(icache[slot])
      ensures !Granted(old(h), old(icache)[slot], blkind, rsz) ==>
                && !ok && h == old(h) && disk == old(disk) && icache == old(icache) && own == old(own)
                && xcaddr == old(xcaddr) && xcache == old(xcache)
      ensures blkind >= |NodeBlocks(old(icache)[slot])| && ok ==>
                xcaddr == old(h).nextBlock && HasChunk(xcache, off, chunk)
    {
      hide *;
      var blk;
      HandParts(i);
      ghost var h1, nd := h, icache[slot];
      blk, ok := BlockForWrite(slot, blkind, rsz, i, e, disk0, s);
      HandParts(i);
      ghost var exact := |e| == 4096 * blkind + off && Within(nd, blkind, rsz);
      GrantedIs(h1, nd, blkind, rsz);
      if !ok {
        if s { NowStored(h1, nd, blkind, rsz, off, chunk, i, e, disk0, false, false); }
        return;
      }
      if s { NowPlaced(h1, nd, h, icache[slot], own, e, blkind, rsz, off, blk); }
      PutChunk(blk, off, chunk, dry, i, blkind, e, disk0, exact, s);
      HandParts(i);
      ok := outcome == Success;
      if s { NowStored(h1, nd, blkind, rsz, off, chunk, i, e, disk0, true, ok); }
    }

    lemma NowStored(h1: HBlock, nd: INode, blkind: nat, rsz: nat, off: nat, chunk: seq<Byte>, i: nat, e: seq<Byte>,
                    disk0: seq<Block>, given: bool, ok: bool)
      requires |icache| == 32 && (ok ==> given)
      requires if blkind < |NodeBlocks(nd)| then given
               else given <==> FreeSlot(nd) && h1.nextBlock + rsz <= h1.nblocks
      requires if blkind < |NodeBlocks(nd)| || !given then h == h1 && icache[i % 32] == nd
               else Grew(h1, nd, h, icache[i % 32], rsz)
      requires if given && |e| == 4096 * blkind + off && Within(nd, blkind, rsz)
               then ok && Writing(i, e + chunk, disk0) else Writing(i, e, disk0)
      ensures BlockStored(h1, nd, blkind, rsz, off, chunk, i, e, disk0, ok)
      ensures given <==> Granted(h1, nd, blkind, rsz)
    {
      hide Writing, NodeBlocks, Grew, Within;
    }

    lemma GrantedIs(h1: HBlock, nd: INode, blkind: nat, rsz: nat)
      ensures Granted(h1, nd, blkind, rsz)
         <==> blkind < |NodeBlocks(nd)| || (FreeSlot(nd) && h1.nextBlock + rsz <= h1.nblocks)
    {
    }

    /** Block `blkind` is there, or will be given. */
    ghost predicate Granted(h1: HBlock, nd: INode, blkind: nat, rsz: nat) {
      blkind < |NodeBlocks(nd)| || (FreeSlot(nd) && h1.nextBlock + rsz <= h1.nblocks)
    }

    /** Block `blkind` is there, or is the first of rsz more. */
    ghost predicate Within(nd: INode, blkind: nat, rsz: nat) {
      blkind < |NodeBlocks(nd)| || (blkind == |NodeBlocks(nd)| && 0 < rsz)
    }

    /** Where the block lies that was found or given. */
    lemma NowPlaced(h1: HBlock, nd: INode, h2: HBlock, nd2: INode, own2: seq<Tag>, e: seq<Byte>, blkind: nat, rsz: nat,
                    off: nat, blk: nat)
      requires |own2| == h2.nextBlock && |e| <= 4096 * |NodeBlocks(nd)| && |e| <= 4096 * blkind + off
      requires if blkind < |NodeBlocks(nd)| then nd2 == nd && blk == NodeBlocks(nd)[blkind]
               else Grew(h1, nd, h2, nd2, rsz) && blk == h1.nextBlock
      ensures if |e| == 4096 * blkind + off && Within(nd, blkind, rsz)
              then blkind < |NodeBlocks(nd2)| && blk == NodeBlocks(nd2)[blkind]
              else Aside(own2, NodeBlocks(nd2), e, blk, off)
    {
      hide NodeBlocks, SolidNode, TwoFree, FreeSlot;
      var cap := |NodeBlocks(nd)|;
      if blkind < cap {
        assert NodeBlocks(nd2)[blkind] == blk;
      } else if 0 < rsz {
        assert NodeBlocks(nd2)[cap] == blk;
      }
    }

    /** What StoreBlock comes to: h1 and nd were header and inode before. */
    ghost predicate BlockStored(h1: HBlock, nd: INode, blkind: nat, rsz: nat, off: nat, chunk: seq<Byte>, i: nat,
                                e: seq<Byte>, disk0: seq<Block>, ok: bool)
      reads `h, `disk, `ino, `own, `live, `pos, `icindex, `icaddr, `icache, `dcaddr, `dcache, `xcaddr, `xcache
    {
      && |icache| == 32 && (Granted(h1, nd, blkind, rsz) || !ok)
      && (if blkind < |NodeBlocks(nd)| || !Granted(h1, nd, blkind, rsz) then h == h1 && icache[i % 32] == nd
          else Grew(h1, nd, h, icache[i % 32], rsz))
      && if |e| == 4096 * blkind + off && Within(nd, blkind, rsz) && Granted(h1, nd, blkind, rsz)
         then ok && Writing(i, e + chunk, disk0) else Writing(i, e, disk0)
    }

    lemma StoredGrew(h1: HBlock, nd: INode, blkind: nat, rsz: nat, off: nat, chunk: seq<Byte>, i: nat, e: seq<Byte>,
                     disk0: seq<Block>, ok: bool)
      requires BlockStored(h1, nd, blkind, rsz, off, chunk, i, e, disk0, ok)
      ensures |icache| == 32
      ensures Granted(h1, nd, blkind, rsz) && blkind >= |NodeBlocks(nd)| ==> Grew(h1, nd, h, icache[i % 32], rsz)
    {
      hide Writing, NodeBlocks, Granted, Grew;
    }

    /** A write of n bytes to file i at `cursor` is under way, and the file's blocks
        hold e; h0, nd0 and disk0 are from before the write.  If it is `astray`, what
        it stores is not counted in e any more: it began behind the end of the file,
        or has been given a region of no blocks. */
    ghost predicate Underway(i: nat, e: seq<Byte>, n: nat, cursor: nat, h0: HBlock, nd0: INode, disk0: seq<Block>,
                             astray: bool)
      reads `h, `disk, `ino, `own, `live, `pos, `icindex, `icaddr, `icache, `dcaddr, `dcache, `xcaddr, `xcache
    {
      && 1 <= h0.fregLen && |icache| == 32
      && Writing(i, e, disk0) && |e| <= 4096 * |NodeBlocks(icache[i % 32])|
      && if |e| < cursor then astray else
           && |e| <= cursor + n && cursor <= 4096 * |NodeBlocks(nd0)|
           && if astray then
                GoesHollow(h0, nd0, n, cursor) && !SolidNode(icache[i % 32])
                && |e| == cursor + Reach(h0, nd0, n, cursor)
              else
                OnTrack(h0, nd0, h, icache[i % 32], n, cursor)
    }

    /** The next block of a write under way, w bytes into it. */
    method StoreNext(slot: nat, blkind: nat, rsz: nat, off: nat, chunk: seq<Byte>, dry: bool, nbytes: nat, cursor: nat,
                     w: nat, ghost i: nat, ghost e: seq<Byte>, ghost h0: HBlock, ghost nd0: INode,
                     ghost disk0: seq<Block>, ghost astray: bool, ghost s: bool)
      returns (ok: bool, ghost astray': bool)
      requires InHand(i) && slot == i % 32 && w + |chunk| <= nbytes && off + |chunk| <= 4096
      requires solid && rsz == 0 ==> s && cursor <= |e| && !GoesHollow(h0, nd0, nbytes, cursor)
      requires if w == 0 then blkind == cursor / 4096 && off == cursor % 4096 && |chunk| == FirstPart(nbytes, cursor)
               else cursor + w == 4096 * blkind && off == 0 && w < nbytes
      requires rsz == AskedFor(nbytes, cursor, w, h.fregLen) && (dry ==> off == 0)
      requires s ==> Underway(i, e, nbytes, cursor, h0, nd0, disk0, astray)
      requires if astray then |e| < cursor + w else |e| == cursor + w
      modifies `h, `disk, `outcome, `icache, `own, `xcaddr, `xcache
      ensures InHand(i) && h.fregLen == old(h).fregLen && (astray ==> astray')
      ensures s && astray' ==>
                && Underway(i, e, nbytes, cursor, h0, nd0, disk0, true)
                && (w == 0 && cursor <= |e| ==> Reach(h0, nd0, nbytes, cursor) == 0)
      ensures s && ok && !astray' ==>
                && Underway(i, e + chunk, nbytes, cursor, h0, nd0, disk0, false)
                && blkind < |NodeBlocks(icache[slot])|
      ensures s && !ok && !astray' ==> Refused(h0, nd0, nbytes, cursor, w)
      ensures s && Granted(old(h), old(icache)[slot], blkind, rsz) && blkind >= |NodeBlocks(old(icache)[slot])| ==>
                Grew(old(h), old(icache)[slot], h, icache[slot], rsz)
      ensures !ok ==> if Granted(old(h), old(icache)[slot], blkind, rsz)
                      then (s ==> astray') && outcome == StoreRefusal(dry, old(xcaddr), old(h).nextBlock)
                           && |old(disk)| <= old(h).nextBlock
                      else astray' == astray && outcome == GrowthRefusal(icache[slot])
      ensures !Granted(old(h), old(icache)[slot], blkind, rsz) ==>
                && !ok && (s ==> Writing(i, e, disk0))
                && h == old(h) && disk == old(disk) && icache == old(icache) && own == old(own)
                && xcaddr == old(xcaddr) && xcache == old(xcache)
      ensures blkind >= |NodeBlocks(old(icache)[slot])| && ok ==>
                xcaddr == old(h).nextBlock && HasChunk(xcache, off, chunk)
    {
      hide InHand, Writing, NodeBlocks, OnTrack, GoesHollow, Reach, SolidNode, Refused, BlockStored, FirstPart,
           TailStart, RegionSize, FreeSlot, Granted, HasChunk, Grew;
      HandParts(i);
      ghost var h1, nd := h, icache[slot];
      if s { NextAsk(h0, nd0, h1, nd, nbytes, cursor, w, blkind, off, rsz, i, e, disk0, astray); }
      ok := StoreBlock(slot, blkind, rsz, off, chunk, dry, i, e, disk0, s);
      HandParts(i);
      astray' := astray || (rsz == 0 && blkind >= |NodeBlocks(nd)| && Granted(h1, nd, blkind, rsz));
      if s {
        Advanced(h0, nd0, h1, nd, nbytes, cursor, w, blkind, rsz, off, chunk, i, e, disk0, ok, astray);
        StoredGrew(h1, nd, blkind, rsz, off, chunk, i, e, disk0, ok);
      }
    }

    /** The next block of a write lies where the bytes stored so far end, or behind;
        no blocks are asked for only by one that is given a region of no blocks. */
    lemma NextAsk(h0: HBlock, nd0: INode, h1: HBlock, nd: INode, n: nat, cursor: nat, w: nat, b: nat, off: nat,
                  rsz: nat, i: nat, e: seq<Byte>, disk0: seq<Block>, astray: bool)
      requires Underway(i, e, n, cursor, h0, nd0, disk0, astray) && h1 == h && nd == icache[i % 32] && InHand(i)
      requires if astray then |e| < cursor + w else |e| == cursor + w
      requires w <= n && rsz == AskedFor(n, cursor, w, h1.fregLen)
      requires if w == 0 then b == cursor / 4096 && off == cursor % 4096
               else cursor + w == 4096 * b && off == 0 && w < n
      ensures Writing(i, e, disk0) && |e| <= 4096 * |NodeBlocks(nd)|
      ensures if astray then |e| < 4096 * b + off else |e| == 4096 * b + off
      ensures h1.nextBlock <= h1.nblocks
      ensures !astray ==> OnTrack(h0, nd0, h1, nd, n, cursor) && b <= |NodeBlocks(nd)|
      ensures cursor <= |e| && !GoesHollow(h0, nd0, n, cursor) && rsz == 0 ==> !FreeSlot(nd) || b < |NodeBlocks(nd)|
    {
      hide InHand, Writing, NodeBlocks, OnTrack, GoesHollow, Reach, SolidNode, FreeSlot, AskedFor;
      HandSpace(i);
      if !astray { TrackAsk(h0, nd0, h1, nd, n, cursor, w, b); }
    }

    /** A write after its next block. */
    lemma Advanced(h0: HBlock, nd0: INode, h1: HBlock, nd: INode, n: nat, cursor: nat, w: nat, b: nat, rsz: nat,
                   off: nat, chunk: seq<Byte>, i: nat, e: seq<Byte>, disk0: seq<Block>, ok: bool, astray: bool)
      requires 1 <= h0.fregLen && |e| <= 4096 * |NodeBlocks(nd)| && h1.nextBlock <= h1.nblocks
      requires w + |chunk| <= n && off + |chunk| <= 4096
      requires cursor <= |e| ==> |e| <= cursor + n && cursor <= 4096 * |NodeBlocks(nd0)|
      requires if |e| < cursor then astray
               else if astray then
                 GoesHollow(h0, nd0, n, cursor) && !SolidNode(nd) && |e| == cursor + Reach(h0, nd0, n, cursor)
               else OnTrack(h0, nd0, h1, nd, n, cursor) && |e| == cursor + w == 4096 * b + off && b <= |NodeBlocks(nd)|
      requires astray ==> |e| < 4096 * b + off
      requires if w == 0 then b == cursor / 4096 && off == cursor % 4096
               else cursor + w == 4096 * b && off == 0 && w < n
      requires rsz == AskedFor(n, cursor, w, h1.fregLen)
      requires BlockStored(h1, nd, b, rsz, off, chunk, i, e, disk0, ok)
      ensures if astray || (rsz == 0 && b >= |NodeBlocks(nd)| && Granted(h1, nd, b, rsz)) then
                && Underway(i, e, n, cursor, h0, nd0, disk0, true)
                && (!astray ==> w == Reach(h0, nd0, n, cursor))
              else if ok then
                && Underway(i, e + chunk, n, cursor, h0, nd0, disk0, false) && b < |NodeBlocks(icache[i % 32])|
              else
                && Writing(i, e, disk0) && Refused(h0, nd0, n, cursor, w) && !Granted(h1, nd, b, rsz)
    {
      hide Writing, NodeBlocks, OnTrack, GoesHollow, Reach, SolidNode, Refused, FreeSlot, TwoFree, AskedFor;
      if !astray {
        if Granted(h1, nd, b, rsz) {
          TrackStep(h0, nd0, h1, nd, h, icache[i % 32], n, cursor, w, b);
        } else {
          TrackRefused(h0, nd0, h1, nd, n, cursor, w, b);
        }
      }
    }

    lemma HandSpace(i: nat)
      requires InHand(i)
      ensures h.nextBlock <= h.nblocks
    {
      hide Kept;
      KeptRoom(h, disk, own, InCaches(), Upkeep(h.nextInode, h.nextInode, solid));
    }

    /** How a write of data at `cursor` to file i ends when it returns n; head are the
        file's bytes up to the cursor, or all of them if it lies behind their end. */
    ghost predicate Ended(ino0: seq<INode>, disk0: seq<Block>, h0: HBlock, nd0: INode, i: nat, head: seq<Byte>,
                          data: seq<Byte>, cursor: nat, n: nat)
      reads this
    {
      && n <= |data|
      && if |head| < cursor then Written(ino0, disk0, i, head, cursor + n) else
           && cursor <= 4096 * |NodeBlocks(nd0)|
           && var r := Reach(h0, nd0, |data|, cursor);
              if GoesHollow(h0, nd0, |data|, cursor) then
                && r <= n && Written(ino0, disk0, i, head + data[..r], cursor + n)
                && |icache| == 32 && !SolidNode(icache[i % 32])
              else
                && Written(ino0, disk0, i, head + Landed(data, cursor, n), cursor + n)
                && (n == |data| <==> Fits(|data|, cursor, |NodeBlocks(nd0)|) && Room(h0, nd0, |data|, cursor))
                && (n < |data| ==>
                      if Fits(|data|, cursor, |NodeBlocks(nd0)|) then cursor + n == 4096 * |NodeBlocks(nd0)|
                      else n == r)
    }

    /** The bytes of head and the first ones of data, at most w; of head alone, if it
        does not reach the cursor. */
    ghost predicate Front(e: seq<Byte>, head: seq<Byte>, data: seq<Byte>, cursor: nat, w: nat) {
      && |head| <= cursor && w <= |data| && |head| <= |e| <= |head| + w && e == head + data[..|e| - |head|]
      && (|head| < cursor ==> e == head)
    }

    /** A write is w bytes into data; e are the bytes of the file and of data that
        its blocks hold for certain. */
    ghost predicate Partway(i: nat, e: seq<Byte>, head: seq<Byte>, data: seq<Byte>, cursor: nat, w: nat, h0: HBlock,
                            nd0: INode, disk0: seq<Block>, astray: bool, s: bool)
      reads `h, `disk, `ino, `own, `live, `pos, `icindex, `icaddr, `icache, `dcaddr, `dcache, `xcaddr, `xcache
    {
      && Front(e, head, data, cursor, w)
      && (if astray then w < |data| ==> |e| < cursor + w else |e| == cursor + w)
      && (s ==>
            && Underway(i, e, |data|, cursor, h0, nd0, disk0, astray)
            && (!astray && |data| == 0 ==> cursor / 4096 < |NodeBlocks(icache[i % 32])|))
    }

    lemma PartFacts(i: nat, e: seq<Byte>, head: seq<Byte>, data: seq<Byte>, cursor: nat, w: nat, h0: HBlock, nd0: INode,
                    disk0: seq<Block>, astray: bool, s: bool)
      requires Partway(i, e, head, data, cursor, w, h0, nd0, disk0, astray, s)
      ensures Front(e, head, data, cursor, w) && |head| <= cursor && |head| <= |e|
      ensures if astray then w < |data| ==> |e| < cursor + w
              else |e| == cursor + w && |head| == cursor && e == head + data[..w]
      ensures s ==>
                && Underway(i, e, |data|, cursor, h0, nd0, disk0, astray)
                && (!astray ==> |icache| == 32 && Writing(i, e, disk0))
                && (!astray && |data| == 0 ==> cursor / 4096 < |NodeBlocks(icache[i % 32])|)
    {
      hide Writing, NodeBlocks, OnTrack, GoesHollow, Reach, SolidNode;
    }

    lemma TrackFacts(i: nat, e: seq<Byte>, n: nat, cursor: nat, h0: HBlock, nd0: INode, disk0: seq<Block>)
      requires Underway(i, e, n, cursor, h0, nd0, disk0, false)
      ensures |icache| == 32 && Writing(i, e, disk0) && |e| <= 4096 * |NodeBlocks(icache[i % 32])|
      ensures cursor <= 4096 * |NodeBlocks(nd0)| && OnTrack(h0, nd0, h, icache[i % 32], n, cursor)
    {
      hide Writing, NodeBlocks, OnTrack;
    }

    /** The bytes stored once the partial last block has been, or has not. */
    lemma TailEnds(e: seq<Byte>, head: seq<Byte>, data: seq<Byte>, cursor: nat, w: nat, ok: bool, astray: bool)
      requires Front(e, head, data, cursor, w) && w == TailStart(cursor, |data|)
      requires !astray ==> |head| == cursor && e == head + data[..w]
      ensures var w', e' := if ok then |data| else w, if ok then e + data[..|data| - w] else e;
              if astray then Front(e, head, data, cursor, w') else e' == head + Landed(data, cursor, w')
    {
      hide TailStart;
      assert head + data[..w] + data[..|data| - w] == head + (data[..w] + data[..|data| - w]);
    }

    /** A write under way after one more chunk. */
    lemma NextPart(i: nat, e: seq<Byte>, e': seq<Byte>, head: seq<Byte>, data: seq<Byte>, cursor: nat, w: nat, w': nat,
                   h0: HBlock, nd0: INode, disk0: seq<Block>, astray': bool, s: bool)
      requires Front(e, head, data, cursor, w) && w < w' <= |data| && |e| <= cursor + w
      requires if astray' then e' == e else |e| == cursor + w && |head| == cursor && e' == e + data[w..w']
      requires s ==> Underway(i, e', |data|, cursor, h0, nd0, disk0, astray')
      ensures Partway(i, e', head, data, cursor, w', h0, nd0, disk0, astray', s)
    {
      hide Underway;
      if !astray' { AppendChunk(head, data, w, w'); }
    }

    /** A write that breaks off, or has stored its last byte, is finished. */
    method EndWrite(slot: nat, data: seq<Byte>, cursor: nat, w: nat, ghost i: nat, ghost e: seq<Byte>,
                    ghost e': seq<Byte>, ghost head: seq<Byte>, ghost h0: HBlock, ghost nd0: INode,
                    ghost disk0: seq<Block>, ghost astray: bool, ghost s: bool)
      returns (n: nat)
      requires InHand(i) && slot == i % 32 && w <= |data| && |head| <= cursor
      requires if astray then Front(e, head, data, cursor, w)
               else |head| == cursor && e' == head + Landed(data, cursor, w)
      requires s && astray ==> Underway(i, e, |data|, cursor, h0, nd0, disk0, true)
      requires s && !astray ==>
                 && Writing(i, e', disk0)
                 && if w == |data| then cursor <= 4096 * |NodeBlocks(nd0)|
                                        && |icache| == 32 && OnTrack(h0, nd0, h, icache[i % 32], |data|, cursor)
                                        && cursor + w <= 4096 * |NodeBlocks(icache[i % 32])|
                                        && (w == 0 ==> cursor / 4096 < |NodeBlocks(icache[i % 32])|)
                    else Refused(h0, nd0, |data|, cursor, w)
      modifies `disk, `outcome, `icache, `ino
      ensures Owning() && n == w && outcome == Success
      ensures s ==> Ended(old(ino), disk0, h0, nd0, i, head, data, cursor, n)
    {
      hide *;
      HandParts(i);
      ghost var e1, nd := if astray then e else e', icache[slot];
      if s { NowClosing(data, cursor, w, i, e, e', head, h0, nd0, disk0, astray); }
      n := FinishWrite(slot, cursor, w, i, e1, disk0, s);
      if s { NowEnded(old(ino), disk0, h0, nd0, nd, i, head, data, cursor, w, e1); }
    }

    /** The bytes e that a write has stored for certain when it ends after n bytes. */
    static ghost predicate Closing(h0: HBlock, nd0: INode, nd: INode, head: seq<Byte>, data: seq<Byte>, cursor: nat,
                                   n: nat, e: seq<Byte>)
    {
      && n <= |data|
      && if |head| < cursor then e == head else
           && cursor <= 4096 * |NodeBlocks(nd0)|
           && var r := Reach(h0, nd0, |data|, cursor);
              if GoesHollow(h0, nd0, |data|, cursor) then r <= n && e == head + data[..r] && !SolidNode(nd)
              else
                && e == head + Landed(data, cursor, n)
                && (n == |data| <==> Fits(|data|, cursor, |NodeBlocks(nd0)|) && Room(h0, nd0, |data|, cursor))
                && (n < |data| ==>
                      if Fits(|data|, cursor, |NodeBlocks(nd0)|) then cursor + n == 4096 * |NodeBlocks(nd0)|
                      else n == r)
    }

    lemma NowClosing(data: seq<Byte>, cursor: nat, w: nat, i: nat, e: seq<Byte>, e': seq<Byte>, head: seq<Byte>,
                     h0: HBlock, nd0: INode, disk0: seq<Block>, astray: bool)
      requires |icache| == 32 && w <= |data| && |head| <= cursor
      requires if astray then Front(e, head, data, cursor, w) && Underway(i, e, |data|, cursor, h0, nd0, disk0, true)
               else
                 && |head| == cursor && e' == head + Landed(data, cursor, w) && Writing(i, e', disk0)
                 && if w == |data| then cursor <= 4096 * |NodeBlocks(nd0)|
                                        && OnTrack(h0, nd0, h, icache[i % 32], |data|, cursor)
                                        && cursor + w <= 4096 * |NodeBlocks(icache[i % 32])|
                                        && (w == 0 ==> cursor / 4096 < |NodeBlocks(icache[i % 32])|)
                    else Refused(h0, nd0, |data|, cursor, w)
      ensures var e1 := if astray then e else e';
              && Writing(i, e1, disk0) && |e1| <= cursor + w
              && Closing(h0, nd0, icache[i % 32], head, data, cursor, w, e1)
    {
      hide Writing, OnTrack, GoesHollow, Reach, SolidNode, NodeBlocks, Landed, Fits, Room;
      if !astray { NotHollow(h0, nd0, h, icache[i % 32], |data|, cursor, w); }
    }

    lemma NowEnded(ino0: seq<INode>, disk0: seq<Block>, h0: HBlock, nd0: INode, nd: INode, i: nat, head: seq<Byte>,
                   data: seq<Byte>, cursor: nat, n: nat, e: seq<Byte>)
      requires Written(ino0, disk0, i, e, cursor + n) && Closing(h0, nd0, nd, head, data, cursor, n, e)
      requires |icache| == 32 && (SolidNode(icache[i % 32]) <==> SolidNode(nd))
      ensures Ended(ino0, disk0, h0, nd0, i, head, data, cursor, n)
    {
      hide Written, GoesHollow, Reach, SolidNode, NodeBlocks, Landed, Fits, Room;
    }

    /** One whole block of a write behind the first. */
    method StoreWhole(slot: nat, data: seq<Byte>, cursor: nat, blkind: nat, w: nat, ghost i: nat, ghost e: seq<Byte>,
                      ghost head: seq<Byte>, ghost h0: HBlock, ghost nd0: INode, ghost disk0: seq<Block>,
                      ghost astray: bool, ghost s: bool)
      returns (ok: bool, ghost e': seq<Byte>, ghost astray': bool)
      requires InHand(i) && slot == i % 32 && |head| <= cursor
      requires 0 < w && w + 4096 <= |data| && cursor + w == 4096 * blkind
      requires AskedFor(|data|, cursor, w, h.fregLen) == RegionSize(|data| - w)
      requires solid && RegionSize(|data| - w) == 0 ==> s && |head| == cursor && !GoesHollow(h0, nd0, |data|, cursor)
      requires Partway(i, e, head, data, cursor, w, h0, nd0, disk0, astray, s)
      modifies `h, `disk, `outcome, `icache, `xcaddr, `xcache, `own
      ensures InHand(i)
      ensures ok ==> Partway(i, e', head, data, cursor, w + 4096, h0, nd0, disk0, astray', s)
      ensures !ok ==> if astray' then Front(e', head, data, cursor, w)
                      else |head| == cursor && e' == head + Landed(data, cursor, w)
      ensures s && !ok ==> if astray' then Underway(i, e', |data|, cursor, h0, nd0, disk0, true)
                           else Writing(i, e', disk0) && Refused(h0, nd0, |data|, cursor, w)
      ensures !Granted(old(h), old(icache)[slot], blkind, RegionSize(|data| - w)) ==>
                !ok && h == old(h) && xcaddr == old(xcaddr) && xcache == old(xcache)
    {
      hide InHand, Writing, Underway, RegionSize, Landed, AskedFor, Refused, GoesHollow, NodeBlocks, OnTrack, Granted,
           HasChunk, Partway, Front, Grew;
      HandParts(i);
      PartFacts(i, e, head, data, cursor, w, h0, nd0, disk0, astray, s);
      LandedIs(head, data, cursor, w);
      ghost var chunk := data[w..w + 4096];
      ok, astray' := StoreNext(slot, blkind, RegionSize(|data| - w), 0, data[w..w + 4096], true, |data|, cursor, w, i,
                               e, h0, nd0, disk0, astray, s);
      e' := if ok && !astray' then e + chunk else e;
      if ok { NextPart(i, e, e', head, data, cursor, w, w + 4096, h0, nd0, disk0, astray', s); }
    }

    /** The whole blocks of a write behind the first, and the partial block after
        them. */
    method WriteWhole(slot: nat, data: seq<Byte>, cursor: nat, blkind0: nat, w0: nat, ghost i: nat, ghost e0: seq<Byte>,
                      ghost head: seq<Byte>, ghost h0: HBlock, ghost nd0: INode, ghost disk0: seq<Block>,
                      ghost astray0: bool, ghost s: bool)
      returns (n: nat)
      requires InHand(i) && slot == i % 32 && |head| <= cursor
      requires w0 <= |data| && AtWhole(|data|, cursor, w0, blkind0)
      requires solid ==> 1 <= |data| <= 255 * 4096 || (s && |head| == cursor && !GoesHollow(h0, nd0, |data|, cursor))
      requires Partway(i, e0, head, data, cursor, w0, h0, nd0, disk0, astray0, s)
      modifies `h, `disk, `outcome, `icache, `xcaddr, `xcache, `own, `ino
      ensures Owning() && n <= |data| && outcome == Success
      ensures s ==> Ended(old(ino), disk0, h0, nd0, i, head, data, cursor, n)
      ensures |data| - w0 >= 4096 && !Granted(old(h), old(icache)[slot], blkind0 + 1, RegionSize(|data| - w0)) ==>
                n == w0 && h == old(h) && xcaddr == old(xcaddr) && xcache == old(xcache)
    {
      hide *;
      var nbytes := |data|;
      var blkind, wcount := blkind0, w0;
      HandParts(i);
      ghost var e, astray, h1, nd1 := e0, astray0, h, icache[slot];
      while nbytes - wcount >= 4096
        invariant InHand(i) && ino == old(ino) && solid == old(solid) && w0 <= wcount <= nbytes
        invariant AtWhole(nbytes, cursor, wcount, blkind)
        invariant Partway(i, e, head, data, cursor, wcount, h0, nd0, disk0, astray, s)
        invariant if wcount == w0 then
                    && blkind == blkind0 && h == h1 && icache == old(icache)
                    && xcaddr == old(xcaddr) && xcache == old(xcache)
                  else Granted(h1, nd1, blkind0 + 1, RegionSize(nbytes - w0))
      {
        WholeStep(nbytes, cursor, wcount, blkind, h.fregLen);
        blkind := blkind + 1;
        var ok;
        ok, e, astray := StoreWhole(slot, data, cursor, blkind, wcount, i, e, head, h0, nd0, disk0, astray, s);
        if !ok {
          n := EndWrite(slot, data, cursor, wcount, i, e, e, head, h0, nd0, disk0, astray, s);
          return;
        }
        wcount := wcount + 4096;
      }
      WholeStep(nbytes, cursor, wcount, blkind, h.fregLen);
      n := WriteTail(slot, data, cursor, blkind, wcount, i, e, head, h0, nd0, disk0, astray, s);
    }

    /** The end of a write: the partial last block, if there is one. */
    method WriteTail(slot: nat, data: seq<Byte>, cursor: nat, blkind0: nat, wcount: nat, ghost i: nat,
                     ghost e: seq<Byte>, ghost head: seq<Byte>, ghost h0: HBlock, ghost nd0: INode,
                     ghost disk0: seq<Block>, ghost astray0: bool, ghost s: bool)
      returns (n: nat)
      requires InHand(i) && slot == i % 32 && |head| <= cursor && wcount <= |data| < wcount + 4096
      requires wcount == TailStart(cursor, |data|) && AtWhole(|data|, cursor, wcount, blkind0)
      requires Partway(i, e, head, data, cursor, wcount, h0, nd0, disk0, astray0, s)
      modifies `h, `disk, `outcome, `icache, `xcaddr, `xcache, `own, `ino
      ensures Owning() && n <= |data| && outcome == Success
      ensures s ==> Ended(old(ino), disk0, h0, nd0, i, head, data, cursor, n)
    {
      hide *;
      var nbytes := |data|;
      ghost var astray := astray0;
      PartFacts(i, e, head, data, cursor, wcount, h0, nd0, disk0, astray, s);
      LandedIs(head, data, cursor, wcount);
      if wcount == nbytes {
        if s && !astray { TrackFacts(i, e, nbytes, cursor, h0, nd0, disk0); }
        n := EndWrite(slot, data, cursor, wcount, i, e, e, head, h0, nd0, disk0, astray, s);
        return;
      }
      HandParts(i);
      TailAsks(nbytes, cursor, wcount, blkind0, h.fregLen);
      ghost var chunk := data[..nbytes - wcount];
      var ok;
      ok, astray := StoreNext(slot, blkind0 + 1, h.fregLen, 0, data[..nbytes - wcount], true, nbytes, cursor, wcount,
                              i, e, h0, nd0, disk0, astray, s);
      TailEnds(e, head, data, cursor, wcount, ok, astray);
      if s && ok && !astray { TrackFacts(i, e + chunk, nbytes, cursor, h0, nd0, disk0); }
      n := EndWrite(slot, data, cursor, if ok then nbytes else wcount, i, e, if ok then e + chunk else e, head, h0, nd0,
                    disk0, astray, s);
    }

    /** fs2_write from the first block on, for the cached inode in `slot`. */
    method WriteBlocks(slot: nat, data: seq<Byte>, cursor: nat, ghost i: nat, ghost head: seq<Byte>, ghost s: bool)
      returns (n: nat)
      requires InHand(i) && slot == i % 32 && |head| <= cursor
      requires solid ==>
                 1 <= |data| <= 255 * 4096 || (s && |head| == cursor && !GoesHollow(h, icache[slot], |data|, cursor))
      requires s ==> 1 <= h.fregLen && Writing(i, head, disk) && |head| <= 4096 * |NodeBlocks(icache[slot])|
      modifies `h, `disk, `outcome, `icache, `xcaddr, `xcache, `own, `ino
      ensures Owning() && n <= |data|
      ensures s && outcome == Success ==>
                Ended(old(ino), old(disk), old(h), old(icache)[slot], i, head, data, cursor, n)
      ensures outcome != Success ==> n == 0 && ino == old(ino)
      ensures outcome in {Success, GrowthRefusal(old(icache)[slot]), StoreRefusal(false, old(xcaddr), old(h).nextBlock)}
      ensures outcome == FileFull || outcome == DiskFull ==>
                && own == old(own) && h == old(h) && disk == old(disk) && icache == old(icache)
                && (s && |head| == cursor ==> Refused(old(h), old(icache)[slot], |data|, cursor, 0))
      ensures s && outcome != Success ==> Writing(i, head, old(disk))
      ensures outcome !in {Success, FileFull, DiskFull} ==>
                && (outcome == DiskRdErr || outcome == DiskWrErr)
                && (s && |head| == cursor ==>
                      HollowAtOnce(old(h), old(icache)[slot], old(disk), i, head, |data|, cursor))
      ensures s && NothingMore(old(h), old(icache)[slot], |old(disk)|, |data|, cursor) ==>
                LeftBehind(old(h), data, cursor)
    {
      hide *;
      HandParts(i);
      ghost var h0, nd0, disk0 := h, icache[slot], disk;
      var ok, write1; ghost var e, astray;
      ok, write1, e, astray := StoreFirst(slot, data, cursor, i, head, s);
      if !ok {
        HandParts(i);
        return 0;
      }
      FirstPartIs(|data|, cursor);
      ghost var left := s && NothingMore(h0, nd0, |disk0|, |data|, cursor);
      if left { SecondParts(h0, i, data, cursor); }
      n := WriteWhole(slot, data, cursor, cursor / 4096, write1, i, e, head, h0, nd0, disk0, astray, s);
      if left { NowLeft(h0, data, cursor); }
    }

    /** The first block of a write. */
    method StoreFirst(slot: nat, data: seq<Byte>, cursor: nat, ghost i: nat, ghost head: seq<Byte>, ghost s: bool)
      returns (ok: bool, write1: nat, ghost e: seq<Byte>, ghost astray: bool)
      requires InHand(i) && slot == i % 32 && |head| <= cursor
      requires solid ==>
                 1 <= |data| <= 255 * 4096 || (s && |head| == cursor && !GoesHollow(h, icache[slot], |data|, cursor))
      requires s ==> 1 <= h.fregLen && Writing(i, head, disk) && |head| <= 4096 * |NodeBlocks(icache[slot])|
      modifies `h, `disk, `outcome, `icache, `xcaddr, `xcache, `own
      ensures InHand(i) && write1 == FirstPart(|data|, cursor)
      ensures ok ==>
                Partway(i, e, head, data, cursor, write1, old(h), old(icache)[slot], old(disk), astray, s)
      ensures !ok ==> outcome in {GrowthRefusal(old(icache)[slot]), StoreRefusal(false, old(xcaddr), old(h).nextBlock)}
      ensures !ok && (outcome == FileFull || outcome == DiskFull) ==>
                && own == old(own) && h == old(h) && disk == old(disk) && icache == old(icache)
                && (s && |head| == cursor ==> Refused(old(h), old(icache)[slot], |data|, cursor, 0))
      ensures s && !ok ==> Writing(i, head, old(disk))
      ensures s && !ok && (outcome == DiskRdErr || outcome == DiskWrErr) && |head| == cursor ==>
                HollowAtOnce(old(h), old(icache)[slot], old(disk), i, head, |data|, cursor)
      ensures s && NothingMore(old(h), old(icache)[slot], |old(disk)|, |data|, cursor) ==>
                ok && SecondFails(old(h), i, data, cursor)
    {
      hide *;
      var nbytes := |data|;
      var max1 := 4096 - cursor % 4096;
      write1 := if nbytes > max1 then max1 else nbytes;
      var blkind := cursor / 4096;
      HandParts(i);
      ghost var h0, nd0, disk0 := h, icache[slot], disk;
      Request1(nbytes, cursor, h.fregLen);
      if s { FirstUnderway(i, head, nbytes, cursor); }
      ok, astray := StoreNext(slot, blkind, RegionSize(nbytes), cursor % 4096, data[..write1], false, nbytes, cursor, 0,
                              i, head, h0, nd0, disk0, |head| < cursor, s);
      HandParts(i);
      e := if astray then head else head + data[..write1];
      if s && NothingMore(h0, nd0, |disk0|, nbytes, cursor) {
        Second(h0, nd0, i, |disk0|, data, cursor, ok);
      }
      if s && !ok && astray && |head| == cursor {
        NotBegun(i, head, nbytes, cursor, h0, nd0, disk0);
      }
      if ok {
        Begun(i, e, head, data, cursor, h0, nd0, disk0, astray, s);
      } else if s && astray {
        UnderwayWrites(i, head, nbytes, cursor, h0, nd0, disk0);
      }
    }

    lemma UnderwayWrites(i: nat, e: seq<Byte>, n: nat, cursor: nat, h0: HBlock, nd0: INode, disk0: seq<Block>)
      requires Underway(i, e, n, cursor, h0, nd0, disk0, true)
      ensures Writing(i, e, disk0)
    {
      hide Writing, NodeBlocks, GoesHollow, Reach, SolidNode, OnTrack;
    }

    /** The first request is given a region of no blocks. */
    ghost predicate HollowAtOnce(h0: HBlock, nd0: INode, disk0: seq<Block>, i: nat, head: seq<Byte>, n: nat,
                                 cursor: nat)
      reads `h, `disk, `ino, `icindex, `icache
    {
      && GoesHollow(h0, nd0, n, cursor) && HollowLeft(ino, disk0, i, head)
      && cursor <= 4096 * |NodeBlocks(nd0)| && Reach(h0, nd0, n, cursor) == 0
    }

    /** The first request of a write asks for no blocks and is granted, behind what
        the disk holds of the volume; the second one is refused. */
    ghost predicate NothingMore(h0: HBlock, nd0: INode, ndisk: nat, n: nat, cursor: nat) {
      var w := FirstPart(n, cursor);
      && |NodeBlocks(nd0)| <= cursor / 4096 && RegionSize(n) == 0 && FreeSlot(nd0) && h0.nextBlock < ndisk
      && h0.nextBlock <= h0.nblocks && n - w >= 4096 && h0.nextBlock + RegionSize(n - w) > h0.nblocks
    }

    /** The second request is refused, and the general purpose cache is on the first
        free block, with the first bytes of data in it. */
    ghost predicate SecondFails(h0: HBlock, i: nat, data: seq<Byte>, cursor: nat)
      reads `h, `icache, `xcaddr, `xcache
    {
      var w := FirstPart(|data|, cursor);
      && |data| - w >= 4096 && |icache| == 32
      && !Granted(h, icache[i % 32], cursor / 4096 + 1, RegionSize(|data| - w))
      && h == h0 && xcaddr == h.nextBlock && HasChunk(xcache, cursor % 4096, data[..w])
    }

    lemma SecondParts(h0: HBlock, i: nat, data: seq<Byte>, cursor: nat)
      requires SecondFails(h0, i, data, cursor)
      ensures var w := FirstPart(|data|, cursor);
              && |data| - w >= 4096 && |icache| == 32
              && !Granted(h, icache[i % 32], cursor / 4096 + 1, RegionSize(|data| - w))
              && h == h0 && xcaddr == h.nextBlock && HasChunk(xcache, cursor % 4096, data[..w])
    {
      hide Granted, RegionSize, HasChunk, FirstPart;
    }

    lemma NowLeft(h0: HBlock, data: seq<Byte>, cursor: nat)
      requires outcome == Success && h == h0 && xcaddr == h.nextBlock
      requires HasChunk(xcache, cursor % 4096, data[..FirstPart(|data|, cursor)])
      ensures LeftBehind(h0, data, cursor)
    {
      hide HasChunk, FirstPart;
    }

    lemma Second(h0: HBlock, nd0: INode, i: nat, ndisk: nat, data: seq<Byte>, cursor: nat, ok: bool)
      requires NothingMore(h0, nd0, ndisk, |data|, cursor) && |icache| == 32
      requires Granted(h0, nd0, cursor / 4096, RegionSize(|data|)) && |NodeBlocks(nd0)| <= cursor / 4096 ==>
                 Grew(h0, nd0, h, icache[i % 32], RegionSize(|data|))
      requires !ok && Granted(h0, nd0, cursor / 4096, RegionSize(|data|)) ==> ndisk <= h0.nextBlock
      requires !ok ==> Granted(h0, nd0, cursor / 4096, RegionSize(|data|)) || h == h0
      requires !Granted(h0, nd0, cursor / 4096, RegionSize(|data|)) ==> !ok
      requires cursor / 4096 >= |NodeBlocks(nd0)| && ok ==>
                 xcaddr == h0.nextBlock && HasChunk(xcache, cursor % 4096, data[..FirstPart(|data|, cursor)])
      ensures ok && SecondFails(h0, i, data, cursor)
    {
      hide NodeBlocks, RegionSize, FirstPart, SolidNode, TwoFree, HasChunk;
    }

    lemma FirstUnderway(i: nat, head: seq<Byte>, n: nat, cursor: nat)
      requires InHand(i) && Writing(i, head, disk) && |head| <= cursor && 1 <= h.fregLen
      requires |icache| == 32 && |head| <= 4096 * |NodeBlocks(icache[i % 32])|
      ensures Underway(i, head, n, cursor, h, icache[i % 32], disk, |head| < cursor)
    {
      hide InHand, Writing, NodeBlocks, OnTrack, GoesHollow, Reach, SolidNode;
      FirstOnTrack(h, icache[i % 32], n, cursor);
    }

    lemma NotBegun(i: nat, head: seq<Byte>, n: nat, cursor: nat, h0: HBlock, nd0: INode, disk0: seq<Block>)
      requires InHand(i) && Underway(i, head, n, cursor, h0, nd0, disk0, true) && |head| == cursor
      requires cursor <= 4096 * |NodeBlocks(nd0)| ==> Reach(h0, nd0, n, cursor) == 0
      ensures HollowAtOnce(h0, nd0, disk0, i, head, n, cursor)
    {
      hide Owning, Mid, Tree, OthersSame, GoesHollow, Reach, SolidNode, NodeBlocks, Holds, ICacheOk, DCacheOk, XCacheOk,
           OnTrack;
      HandParts(i);
    }

    lemma Begun(i: nat, e: seq<Byte>, head: seq<Byte>, data: seq<Byte>, cursor: nat, h0: HBlock, nd0: INode,
                disk0: seq<Block>, astray: bool, s: bool)
      requires |head| <= cursor && (s ==> Underway(i, e, |data|, cursor, h0, nd0, disk0, astray))
      requires e == if astray then head else head + data[..FirstPart(|data|, cursor)]
      requires !astray ==> |head| == cursor && (s ==> cursor / 4096 < |NodeBlocks(icache[i % 32])|)
      ensures Partway(i, e, head, data, cursor, FirstPart(|data|, cursor), h0, nd0, disk0, astray, s)
    {
      hide Underway;
      FirstPartIs(|data|, cursor);
      assert head + data[..0] == head;
    }

    /** fs2_write: put data into the file from `cursor` on and end the file there.
        Whatever is written, the volume stays whole, unless the write stores its
        first block behind the end of the disk. */
    method Write(path: string, data: seq<Byte>, cursor: nat) returns (n: int)
      requires Usable()
      modifies `h, `disk, `outcome, `icindex, `icaddr, `icache, `dcaddr, `dcache, `xcaddr, `xcache, `own, `ino, `solid
      ensures Owning() && n <= |data| && (old(solid) && 1 <= |data| <= 255 * 4096 ==> solid)
      ensures old(Valid()) && outcome != DiskRdErr && outcome != DiskWrErr ==> Valid()
      ensures old(Valid()) && outcome != Success && old(AllInUse()) ==> AllInUse()
      ensures old(Valid()) && Target(old(Nodes0()), path).Miss? ==>
                && n == -1 && outcome == Target(old(Nodes0()), path).why != Success
                && Valid() && Nodes0() == old(Nodes0()) && solid == old(solid)
      ensures old(Valid()) && Target(old(Nodes0()), path).Hit? ==>
                var c := Target(old(Nodes0()), path).child;
                && c < |old(Nodes0())| == |old(ino)|
                && (old(Nodes0())[c].DirNode? ==>
                      && n == -1 && outcome == BadFType
                      && Valid() && Nodes0() == old(Nodes0()) && solid == old(solid))
                && (old(Nodes0())[c].FileNode? ==>
                      && WriteResult(old(h), old(ino)[c], old(disk), old(ino), c, data, cursor, n)
                      && outcome in {Success, GrowthRefusal(old(ino)[c]),
                                     StoreRefusal(false, old(xcaddr), old(h).nextBlock)}
                      && (old(solid) && cursor <= |old(Nodes0())[c].bytes| ==>
                            GoesHollow(old(h), old(ino)[c], |data|, cursor) || solid)
                      && (NothingMore(old(h), old(ino)[c], |old(disk)|, |data|, cursor) ==>
                            LeftBehind(old(h), data, cursor)))
    {
      hide Valid, Owning, NodeOk, NodeBlocks, NodeKept, Resolve, WriteResult, NodeView, NothingMore, LeftBehind,
           AllInUse;
      ghost var s := Valid();
      var i := OpenInode(path);
      if outcome != Success { return -1; }
      if s { LiveInode(i); }
      var inode := icache[i % 32];
      if inode.ftype != File {
        outcome := BadFType;
        return -1;
      }
      n := WriteFile(i, data, cursor, s);
    }

    /** The general purpose cache is on the first free block, with the first bytes of
        data in it. */
    ghost predicate LeftBehind(h0: HBlock, data: seq<Byte>, cursor: nat)
      reads `h, `outcome, `xcaddr, `xcache
    {
      && outcome == Success && h == h0 && xcaddr == h.nextBlock
      && HasChunk(xcache, cursor % 4096, data[..FirstPart(|data|, cursor)])
    }

    /** fs2_write once the file has been found. */
    method WriteFile(i: nat, data: seq<Byte>, cursor: nat, ghost s: bool) returns (n: int)
      requires Owning() && i < h.nextInode && i / 32 == icindex < |ITab(h)| && |icache| == 32
      requires TableShape(icache[i % 32]) && icache[i % 32].ftype.File?
      requires s ==> Valid() && i in live && i < |ino| && icache[i % 32] == ino[i]
      modifies `h, `disk, `outcome, `icache, `xcaddr, `xcache, `own, `ino, `solid
      ensures Owning() && n <= |data| && (old(solid) && 1 <= |data| <= 255 * 4096 ==> solid)
      ensures s && outcome != DiskRdErr && outcome != DiskWrErr ==> Valid()
      ensures s && outcome != Success && old(AllInUse()) ==> AllInUse()
      ensures s ==>
                && i < |old(Nodes0())| && old(Nodes0())[i].FileNode?
                && WriteResult(old(h), old(ino)[i], old(disk), old(ino), i, data, cursor, n)
                && outcome in {Success, GrowthRefusal(old(ino)[i]), StoreRefusal(false, old(xcaddr), old(h).nextBlock)}
                && (old(solid) && cursor <= |old(Nodes0())[i].bytes| ==>
                      GoesHollow(old(h), old(ino)[i], |data|, cursor) || solid)
                && (NothingMore(old(h), old(ino)[i], |old(disk)|, |data|, cursor) ==> LeftBehind(old(h), data, cursor))
    {
      hide Valid, Owning, InHand, Consistent, ICacheOk, DCacheOk, XCacheOk, Writing, Fits, Room, Landed, NodeBlocks,
           NodeView, GoesHollow, Reach, Ended, Refused, Written, HollowAtOnce, LeftBehind, NothingMore, WriteResult,
           ListsInUse, ViewInUse;
      ghost var listed := AllInUse();
      if s {
        LiveInode(i);
        InUseSeen();
      }
      ghost var file := if s then Nodes0()[i].bytes else Blank(cursor);
      ghost var head := if cursor <= |file| then file[..cursor] else file;
      if s { StartWriting(i, head); }
      Loosen(|data|, cursor, i, s && cursor <= |file|);
      n := WriteBlocks(i % 32, data, cursor, i, head, s);
      if s && (outcome == FileFull || outcome == DiskFull) { StopWriting(i, head, old(disk)); }
      if s && outcome != Success && listed { StoppedInUse(i, head, old(disk)); }
      if s { Result(old(h), old(ino)[i], old(disk), old(ino), i, head, data, cursor, n); }
    }

    lemma LiveInode(i: nat)
      requires Valid() && i in live
      ensures i < |ino| && |Nodes0()| == |ino| && Nodes0()[i] == NodeView(disk, ino[i])
      ensures ino[i].ftype.Dir? <==> NodeView(disk, ino[i]).DirNode?
    {
      hide Owning, Consistent, NodeView;
      Whole();
      LiveNode(h, disk, ino, own, live, pos, i);
    }

    lemma StartWriting(i: nat, e: seq<Byte>)
      requires Valid() && i in live && i < |ino| && ino[i].ftype.File? && i / 32 == icindex < |ITab(h)|
      requires |icache| == 32 && icache[i % 32] == ino[i]
      requires Nodes0()[i].FileNode? && e <= Nodes0()[i].bytes
      ensures Writing(i, e, disk) && Consistent(h, disk, ino, own, live, pos)
      ensures |e| <= 4096 * |NodeBlocks(ino[i])| && 1 <= h.fregLen
    {
      hide Valid, Consistent, ICacheOk, DCacheOk, XCacheOk, NodeView;
      Whole();
      WriteStart(h, disk, ino, own, live, pos, InCaches(), i, e);
    }

    /** A write under way makes no directory list more. */
    lemma StoppedInUse(i: nat, e: seq<Byte>, disk0: seq<Block>)
      requires Writing(i, e, disk0) && ViewInUse(View(disk0, ino))
      ensures AllInUse()
    {
      hide View, NodeOnDisk, ListsInUse, ViewInUse, Owned, Nodes, Tree, DCacheOk, XCacheOk, Holds, NodeView;
      WrittenInUse(h, disk0, disk, ino, InCaches(), i);
    }

    /** A write that stored nothing leaves the volume as it was. */
    lemma StopWriting(i: nat, e: seq<Byte>, disk0: seq<Block>)
      requires Writing(i, e, disk0) && Owning() && i < |ino| && |icache| == 32 && icache[i % 32] == ino[i]
      requires Consistent(h, disk, ino, own, live, pos)
      ensures Valid()
    {
      hide Owning, Consistent, WriteState;
      WriteUndone(h, disk, ino, own, InCaches(), i, e);
      NowValid();
    }

    /** A write may add a region of no blocks. */
    ghost method Loosen(n: nat, cursor: nat, i: nat, within: bool)
      requires Owning() && i < h.nextInode && i / 32 == icindex < |ITab(h)|
      requires |icache| == 32 && TableShape(icache[i % 32]) && icache[i % 32].ftype.File?
      modifies `solid
      ensures InHand(i)
      ensures solid ==
              (old(solid) && (1 <= n <= 255 * 4096 || (within && !GoesHollow(h, icache[i % 32], n, cursor))))
    {
      hide Kept, GoesHollow;
      KeptLoose(h, disk, own, InCaches(), Upkeep(h.nextInode, h.nextInode, solid));
      solid := solid && (1 <= n <= 255 * 4096 || (within && !GoesHollow(h, icache[i % 32], n, cursor)));
    }

    /** What a write of data at `cursor` into file c, then with inode nd, does.  Its
        outcome is that of the saving of the inode, unless it stores nothing; the
        bytes before the cursor stay. */
    ghost predicate WriteResult(h0: HBlock, nd: INode, disk0: seq<Block>, ino0: seq<INode>, c: nat, data: seq<Byte>,
                                cursor: nat, n: int)
      requires c < |ino0| && View(disk0, ino0)[c].FileNode?
      reads this
    {
      var view0 := View(disk0, ino0);
      var file := view0[c].bytes;
      && 0 <= n <= |data| && (outcome != Success ==> n == 0)
      && (outcome == FileFull || outcome == DiskFull ==> outcome == GrowthRefusal(nd) && Valid() && Nodes0() == view0)
      && outcome in {Success, FileFull, DiskFull, DiskRdErr, DiskWrErr}
      && if cursor <= |file| then WithinResult(h0, nd, disk0, ino0, c, data, cursor, n)
         else outcome == Success ==> Written(ino0, disk0, c, file, cursor + n)
    }

    /** The same for a cursor within the file: data is put in, as far as it has room,
        unless the write comes to be given a region of no blocks.  Then the file
        begins with data up to there, that region stays in use, and the end of file
        is set as if all had been stored. */
    ghost predicate WithinResult(h0: HBlock, nd: INode, disk0: seq<Block>, ino0: seq<INode>, c: nat, data: seq<Byte>,
                                 cursor: nat, n: int)
      requires c < |ino0| && View(disk0, ino0)[c].FileNode? && cursor <= |View(disk0, ino0)[c].bytes|
      requires 0 <= n <= |data|
      reads this
    {
      var view0, head := View(disk0, ino0), View(disk0, ino0)[c].bytes[..cursor];
      && cursor <= 4096 * |NodeBlocks(nd)|
      && var r, fits := Reach(h0, nd, |data|, cursor), Fits(|data|, cursor, |NodeBlocks(nd)|);
         if !GoesHollow(h0, nd, |data|, cursor) then
           && outcome in {Success, FileFull, DiskFull}
           && (outcome == Success ==>
                 && Written(ino0, disk0, c, head + Landed(data, cursor, n), cursor + n)
                 && Nodes0() == view0[c := FileNode(head + Landed(data, cursor, n))])
           && (n == |data| && outcome == Success <==> fits && Room(h0, nd, |data|, cursor))
           && (n < |data| || outcome != Success ==> if fits then cursor + n == 4096 * |NodeBlocks(nd)| else n == r)
         else
           && r <= n && outcome in {Success, DiskRdErr, DiskWrErr}
           && if outcome == Success
              then Written(ino0, disk0, c, head + data[..r], cursor + n) && |icache| == 32 && !SolidNode(icache[c % 32])
              else HollowLeft(ino0, disk0, c, head)
    }

    lemma Result(h0: HBlock, nd: INode, disk0: seq<Block>, ino0: seq<INode>, c: nat, head: seq<Byte>, data: seq<Byte>,
                 cursor: nat, n: nat)
      requires c < |ino0| && View(disk0, ino0)[c].FileNode? && n <= |data|
      requires var file := View(disk0, ino0)[c].bytes;
               head == if cursor <= |file| then file[..cursor] else file
      requires outcome == Success ==> Ended(ino0, disk0, h0, nd, c, head, data, cursor, n)
      requires outcome != Success ==> n == 0
      requires outcome == FileFull || outcome == DiskFull ==>
                 && outcome == GrowthRefusal(nd) && Valid() && Nodes0() == View(disk0, ino0)
                 && (|head| == cursor ==> Refused(h0, nd, |data|, cursor, 0))
      requires outcome !in {Success, FileFull, DiskFull} ==>
                 && (outcome == DiskRdErr || outcome == DiskWrErr)
                 && ino == ino0 && (|head| == cursor ==> HollowAtOnce(h0, nd, disk0, c, head, |data|, cursor))
      ensures WriteResult(h0, nd, disk0, ino0, c, data, cursor, n)
      ensures outcome == Success ==> Valid()
    {
      hide Valid, Owning, NodeBlocks, NodeView, GoesHollow, Reach, Fits, Room, Landed, HollowLeft, SolidNode, Shown;
      if outcome == Success && |head| == cursor && !GoesHollow(h0, nd, |data|, cursor) {
        Exactly(disk0, ino0, c, head + Landed(data, cursor, n));
      }
    }

    /** A file that ends with the bytes e holds these and no others. */
    lemma Exactly(disk0: seq<Block>, ino0: seq<INode>, c: nat, e: seq<Byte>)
      requires Written(ino0, disk0, c, e, |e|)
      ensures c < |ino0| && Nodes0() == View(disk0, ino0)[c := FileNode(e)]
    {
      hide Valid, View, Shown;
      assert e <= Nodes0()[c].bytes && |Nodes0()[c].bytes| <= |e|;
      assert Nodes0()[c] == FileNode(e);
    }

    // --------------------------------------------------------- directories

    /** What the directory cache holds once block a is loaded, or taken for loaded. */
    ghost function Loaded(a: nat, dry: bool): seq<DirEntry>
      reads `disk, `dcaddr, `dcache
    {
      if dry || a == dcaddr then dcache else EntriesOf(BlockAt(disk, a))
    }

    /** Load a directory block (or only take its address), change one entry of
        it, and save it. */
    method SetEntry(dbaddr: nat, dry: bool, at: nat, e: DirEntry)
      requires dbaddr < |disk| && |dcache| == 128 && at < 128
      modifies `disk, `outcome, `dcaddr, `dcache
      ensures outcome == Success && dcaddr == dbaddr
      ensures |old(Loaded(dbaddr, dry))| == 128 && dcache == old(Loaded(dbaddr, dry))[at := e]
      ensures disk == old(disk)[dbaddr := DirBlock(dcache)]
    {
      LoadDblockC(dbaddr, dry);
      dcache := dcache[at := e];
      SaveDblockC();
    }

    /** Load the block for the next entry of inode p (or only take its address),
        store the entry in slot `at` of it, and count it.  In a volume that is
        whole, as `s` promises, p is a directory. */
    method StoreEntry(dbaddr: nat, dry: bool, slot: nat, at: nat, e: DirEntry, ghost p: nat, ghost m: nat, ghost n: nat,
                      ghost s: bool)
      requires Keeps(m, n) && p < n && p / 32 == icindex && p % 32 == slot && |icache| == 32 && |e.name| == 28
      requires at < 128
      requires 0 < dbaddr < |own| && !own[dbaddr].InodeTag?
      requires icache[slot].ftype.Dir? ==> icache[slot].eof < 128 * |NodeBlocks(icache[slot])|
      requires s ==>
                && Dirty(h, disk, ino, own, InCaches()) && p < |ino| && ino[p].ftype.Dir? && icache[slot] == ino[p]
                && ino[p].eof / 128 < |NodeBlocks(ino[p])| && dbaddr == NodeBlocks(ino[p])[ino[p].eof / 128]
                && at == ino[p].eof % 128 && (dry ==> at == 0)
      modifies `disk, `outcome, `icache, `dcaddr, `dcache, `ino
      ensures outcome == Success && Keeps(m, n) && |disk| == |old(disk)|
      ensures s ==>
                && Dirty(h, disk, ino, own, InCaches())
                && EntryAdded(old(ino), ino, old(Nodes0()), Nodes0(), p, e)
    {
      hide Kept, Dirty, EntryAdded, Sized, NodeBlocks, View, NodeView, DirEntries, EntriesOf, DCacheOk, Owns, NodeOk,
           InodesOf, FlatFrom, Tree;
      ghost var c, u := InCaches(), Upkeep(m, n, solid);
      if s {
        CachedDirBlock(h, disk, ino, own, c, p, icache[slot].eof / 128);
        DirInHand(h, disk, ino, own, c, p);
      }
      KeptEntries(h, disk, own, c, u, dbaddr);
      ghost var ents := Loaded(dbaddr, dry);
      if s { PutEntry(h, disk, ino, own, c, p, ents, e); }
      KeptEntry(h, disk, own, c, u, p, dbaddr, ents[at := e], icache[slot].eof + 1);
      SetEntry(dbaddr, dry, at, e);
      icache := icache[slot := icache[slot].(eof := icache[slot].eof + 1)];
      if s { ino := ino[p := icache[slot]]; }
    }

    /** fs2_add_dir_entry: one more entry at the end of the cached directory in
        `slot`, which is inode p.  (The C code leaves n and i unset where it
        means them to start from 0.) */
    method AddDirEntry(name: string, slot: nat, ciindex: nat, ghost p: nat, ghost m: nat, ghost n: nat, ghost s: bool)
      requires Keeps(m, n) && p < n && p / 32 == icindex && p % 32 == slot
      requires s ==> Dirty(h, disk, ino, own, InCaches()) && p < |ino| && ino[p].ftype.Dir? && Sized(ino[p])
      modifies `h, `disk, `outcome, `icache, `dcaddr, `dcache, `own, `ino
      ensures Keeps(m, n) && |disk| == |old(disk)|
      ensures h == old(h) || h == Bump(old(h), old(h).dregLen)
      ensures s ==> (outcome == Success <==> CanAdd(old(h), old(ino)[p])) && Dirty(h, disk, ino, own, InCaches())
      ensures s && outcome == Success ==>
                && h == (if old(ino)[p].eof < 128 * |NodeBlocks(old(ino)[p])| then old(h)
                         else Bump(old(h), old(h).dregLen))
                && Linkage(old(ino), ino, old(Nodes0()), Nodes0(), p, DirEntry(ciindex, Pad(name)), old(h).dregLen,
                           old(h).nextBlock)
      ensures outcome != Success ==>
                && outcome == GrowthRefusal(icache[slot])
                && h == old(h) && disk == old(disk) && icache == old(icache) && own == old(own) && ino == old(ino)
    {
      hide Kept, NodeKept, Dirty, EntryAdded, Linkage, View, NodeBlocks, Flat, FlatFrom, NodeOk, Sized, DCacheOk, Owns,
           NodeView, EntriesOf, InodesOf, Tree;
      ghost var ino0, disk0 := ino, disk;
      KeptInode(h, disk, own, InCaches(), Upkeep(m, n, solid), p);
      EntryPlace(own, p, icache[slot], solid);
      if s { DirInHand(h, disk, ino, own, InCaches(), p); }
      var dinode := icache[slot];
      var found, dbaddr, i := EntryBlock(dinode);
      if found {
        StoreEntry(dbaddr, false, slot, dinode.eof % 128, DirEntry(ciindex, Pad(name)), p, m, n, s);
        if s { LinkedInPlace(disk0, ino0, ino, Nodes0(), p, DirEntry(ciindex, Pad(name)), h.dregLen, h.nextBlock); }
        return;
      }
      if i == 23 { outcome := FileFull; return; }
      var daddr := AddDirRegion(slot, i, p, m, n, s);
      if daddr == 0 { return; }
      ghost var ino1 := ino;
      if s { FullDir(ino0[p]); }
      StoreEntry(daddr, true, slot, 0, DirEntry(ciindex, Pad(name)), p, m, n, s);
      if s { LinkedInNew(disk0, ino0, ino1, ino, Nodes0(), p, DirEntry(ciindex, Pad(name)), h.dregLen, daddr); }
    }

    /** The growth step of fs2_add_dir_entry: a new region in free slot i. */
    method AddDirRegion(slot: nat, i: nat, ghost p: nat, ghost m: nat, ghost n: nat, ghost s: bool) returns (daddr: nat)
      requires Keeps(m, n) && p < n && p / 32 == icindex && p % 32 == slot && |icache| == 32
      requires TableShape(icache[slot]) && i < 23 && FirstFree(icache[slot].regStart, i)
      requires s ==>
                && Dirty(h, disk, ino, own, InCaches()) && p < |ino| && icache[slot] == ino[p]
                && ino[p].ftype.Dir? && Sized(ino[p])
      modifies `h, `outcome, `icache, `own, `ino, `disk
      ensures disk == old(disk) && h == if daddr != 0 then Bump(old(h), old(h).dregLen) else old(h)
      ensures daddr != 0 <==> old(h).nextBlock + old(h).dregLen <= old(h).nblocks
      ensures daddr == 0 ==>
                outcome == DiskFull && h == old(h) && icache == old(icache) && own == old(own) && ino == old(ino)
      ensures daddr != 0 ==>
                && Keeps(m, n) && |icache| == 32 && 0 < daddr < |own| && !own[daddr].InodeTag?
                && icache[slot].ftype == old(icache)[slot].ftype && icache[slot].eof == old(icache)[slot].eof
                && |NodeBlocks(icache[slot])| == |NodeBlocks(old(icache)[slot])| + h.dregLen && 1 <= h.dregLen
      ensures s && daddr != 0 ==>
                && Dirty(h, disk, ino, own, InCaches())
                && |ino| == |old(ino)| && icache[slot] == ino[p]
                && ino == old(ino)[p := old(ino)[p].(regStart := ino[p].regStart, regLen := ino[p].regLen)]
                && NodeBlocks(ino[p]) == NodeBlocks(old(ino)[p]) + Run(daddr, h.dregLen)
                && daddr == old(h).nextBlock
                && Nodes0() == old(Nodes0())[p := DirNode(old(Nodes0())[p].entries, |NodeBlocks(ino[p])|)]
    {
      hide Kept, NodeKept, Dirty, NodeBlocks, FirstFree, View, EntriesOf, InodesOf, FlatFrom, Tree;
      ghost var h0, own0, c, u := h, own, InCaches(), Upkeep(m, n, solid);
      KeptInode(h, disk, own, c, u, p);
      daddr := FindFreeRegion(h.dregLen, false);
      if daddr == 0 { return; }
      KeptGrow(h0, disk, own, c, u, p, i, h0.dregLen, false);
      var dinode := icache[slot];
      dinode := dinode.(regStart := dinode.regStart[i := daddr], regLen := dinode.regLen[i := h.dregLen]);
      icache := icache[slot := dinode];
      own := own + Tags(dinode.ftype, p, |NodeBlocks(c.icache[slot])|, h0.dregLen);
      if s {
        GrowDir(h0, disk, ino, own0, c, p, i, h0.dregLen);
        ino := ino[p := dinode];
      }
    }

    // ------------------------------------------------------------ creation

    /** The arrays of the structure have their C sizes. */
    ghost predicate Shaped()
      reads `icache, `dcache
    {
      && |icache| == 32 && (forall s :: 0 <= s < 32 ==> TableShape(icache[s]))
      && |dcache| == 128 && NamesOk(dcache)
    }

    /** The state format meets when the volume structure was zeroed instead of
        unset, or is in use: inode block 0 passes for cached. */
    ghost predicate StaleRoot()
      reads `h, `disk, `icindex, `icache, `dcache
    {
      && HeaderOk(h, |disk|) && h.nextInode == 0 && ITab(h) == []
      && icindex == 0 && Shaped()
    }

    /** What fs2_create_file starts from.  `kept` promises that the blocks have
        their owners, `ready` that the volume is whole; format may have neither. */
    ghost predicate Creating(ready: bool, kept: bool)
      reads `h, `disk, `ino, `own, `solid, `icindex, `icaddr, `icache, `dcaddr, `dcache, `xcaddr, `xcache
    {
      && (!kept ==> !ready && StaleRoot())
      && (kept ==> Keeps(h.nextInode, h.nextInode) && (icindex == h.nextInode / 32 ==> icindex < |ITab(h)|))
      && (ready ==> Clean(h, disk, ino, own, InCaches()) && (ino == [] ==> ITab(h) == []))
    }

    /** The inode block the next new inode goes into, allocated if need be. */
    method CacheNextInode(ghost ready: bool, ghost kept: bool)
      requires Creating(ready, kept)
      modifies `h, `disk, `outcome, `icindex, `icaddr, `icache, `own
      ensures !kept ==> StaleRoot() && outcome == Success && h == old(h) && disk == old(disk)
      ensures !kept ==> icaddr == old(icaddr) && icache == old(icache)
      ensures kept ==> Keeps(h.nextInode, h.nextInode) && CachedNext(old(h), old(disk))
      ensures ready ==> Clean(h, disk, ino, own, InCaches()) && (ino != [] ==> Nodes0() == old(Nodes0()))
    {
      hide Clean, Kept, NewIregion, View, EntriesOf, InodesOf, FlatFrom, Tree;
      ghost var h0, disk0, c, u := h, disk, InCaches(), Upkeep(h.nextInode, h.nextInode, solid);
      if kept {
        NextKept(h, disk, own, c, u);
        KeptRoom(h, disk, own, c, u);
      }
      if ready { NextInodeBlock(h, disk, ino, own, c); }
      GetIblockC(h.nextInode / 32, true, false);
      if kept && h.nextBlock != h0.nextBlock { Extend(h0, disk0, c, ready); }
    }

    /** The owners of a new region of inode blocks. */
    ghost method Extend(h0: HBlock, disk0: seq<Block>, c: Caches, ready: bool)
      requires Kept(h0, disk0, own, c, Upkeep(h0.nextInode, h0.nextInode, solid)) && 1 <= h0.iregLen
      requires NewIregion(h0, h) && h0.nextInode == 32 * |ITab(h0)| && 0 < |disk0|
      requires disk == disk0[0 := HeaderBlock(h)]
      requires InCaches() == c.(icindex := |ITab(h0)|, icaddr := h0.nextBlock)
      requires ready ==> Clean(h0, disk0, ino, own, c) && |ino| == h0.nextInode
      modifies `own
      ensures Keeps(h.nextInode, h.nextInode) && icindex < |ITab(h)|
      ensures h == h0.(nextBlock := h0.nextBlock + InodeBlocksNeeded(h0), regStart := h.regStart, regLen := h.regLen)
      ensures h0.nextInode < 32 * |ITab(h)| && |ITab(h)| == |ITab(h0)| + InodeBlocksNeeded(h0)
      ensures ready ==> Clean(h, disk, ino, own, InCaches()) && (ino != [] ==> Nodes0() == View(disk0, ino))
    {
      hide Clean, Kept, NewIregion, View, ITab;
      KeptIregion(h0, h, disk0, own, c, Upkeep(h0.nextInode, h0.nextInode, solid));
      TableLonger(h0, h);
      if ready { AddIregion(h0, h, disk0, ino, own, c); }
      own := own + InodeTags(|ITab(h0)|, h0.iregLen);
    }

    /** The next new inode's block is cached, or there is no space for it. */
    ghost predicate CachedNext(h0: HBlock, disk0: seq<Block>)
      reads `h, `disk, `outcome, `icindex
    {
      && icindex == h0.nextInode / 32 && |disk| == |disk0|
      && (outcome == Success <==> HasInodeSpace(h0))
      && (BlockAt(disk0, 0) == HeaderBlock(h0) ==> BlockAt(disk, 0) == HeaderBlock(h))
      && (outcome != Success ==> outcome == RegionRefusal(h0) && h == h0 && disk == disk0)
      && (outcome == Success ==>
            && h == h0.(nextBlock := h0.nextBlock + InodeBlocksNeeded(h0), regStart := h.regStart, regLen := h.regLen)
            && (InodeBlocksNeeded(h0) == 0 ==> h.regStart == h0.regStart && h.regLen == h0.regLen)
            && (h0.nextInode == 32 * |ITab(h0)| ==> BlockAt(disk, 0) == HeaderBlock(h))
            && icindex < |ITab(h)| && h0.nextInode < 32 * |ITab(h)| && h.nextBlock <= h.nblocks
            && |ITab(h)| == |ITab(h0)| + InodeBlocksNeeded(h0))
    }

    /** fs2_init_inode: an empty file, or a directory with its first region. */
    method InitInode(slot: nat, ftype: FType, perm: nat)
      requires slot < |icache| && TableShape(icache[slot]) && 0 < h.nextBlock
      modifies `h, `disk, `outcome, `icache
      ensures |icache| == |old(icache)| && icache == old(icache)[slot := icache[slot]] && disk == old(disk)
      ensures TableShape(icache[slot])
      ensures outcome == Success || outcome == DiskFull
      ensures outcome == Success <==> ftype.File? || old(h).nextBlock + old(h).dregLen <= old(h).nblocks
      ensures h == if outcome == Success && ftype.Dir? then Bump(old(h), old(h).dregLen) else old(h)
      ensures outcome == Success ==>
                && icache[slot].ftype == ftype && icache[slot].eof == 0
                && NodeBlocks(icache[slot]) == (if ftype.Dir? then Run(old(h).nextBlock, h.dregLen) else [])
                && (1 <= h.dregLen ==> NodeShape(icache[slot], true))
                && (ftype.Dir? ==> icache[slot].regStart[0] == old(h).nextBlock)
    {
      var inode := icache[slot];
      inode := inode.(ftype := ftype, fperm := perm, eof := 0, regStart := seq(23, i => 0));
      FirstRegion(inode.regStart, inode.regLen, h.nextBlock, h.dregLen);
      icache := icache[slot := inode];
      if ftype == Dir {
        var rst := FindFreeRegion(h.dregLen, false);
        if rst == 0 {
          outcome := DiskFull;
          return;
        }
        inode := inode.(regStart := inode.regStart[0 := rst], regLen := inode.regLen[0 := h.dregLen]);
        icache := icache[slot := inode];
      }
      outcome := Success;
    }

    /** The entries "." and ".." of a new directory. */
    method StoreDots(slot: nat, iindex: nat, parent: nat)
      requires slot < |icache| && TableShape(icache[slot]) && |dcache| == 128 && NamesOk(dcache)
      requires icache[slot].regStart[0] < |disk|
      modifies `disk, `outcome, `icache, `dcaddr, `dcache
      ensures outcome == Success && dcaddr == old(icache)[slot].regStart[0]
      ensures dcache == DotBlock(old(dcache), iindex, parent)
      ensures icache == old(icache)[slot := old(icache)[slot].(eof := 2)]
      ensures disk == old(disk)[dcaddr := DirBlock(dcache)]
    {
      hide StrCpy, DotBlock, NamesOk;
      var dbaddr := icache[slot].regStart[0];
      LoadDblockC(dbaddr, true);
      dcache := DotBlock(dcache, iindex, parent);
      icache := icache[slot := icache[slot].(eof := 2)];
      SaveDblockC();
    }

    /** What a new inode's block is like before it is filled in. */
    lemma FillStart(kept: bool)
      requires if kept then Keeps(h.nextInode, h.nextInode) else StaleRoot()
      ensures Shaped() && 0 < h.nextBlock && 1 <= h.dregLen && h.nblocks <= |disk| && 0 < |disk|
    {
      hide Kept;
      if kept { KeptRoom(h, disk, own, InCaches(), Upkeep(h.nextInode, h.nextInode, solid)); }
    }

    /** The next slot of the inode block is cached, and there is a header. */
    ghost predicate Filling(ready: bool, kept: bool)
      reads `h, `disk, `ino, `own, `solid, `icindex, `icaddr, `icache, `dcaddr, `dcache, `xcaddr, `xcache
    {
      && (!kept ==> !ready && StaleRoot())
      && (kept ==>
            && Keeps(h.nextInode, h.nextInode) && icindex == h.nextInode / 32 < |ITab(h)|
            && h.nextInode < 32 * |ITab(h)| && BlockAt(disk, 0).HeaderBlock?)
      && (ready ==> Clean(h, disk, ino, own, InCaches()) && h.nextInode == |ino|)
    }

    /** The blank new inode in its slot, with its parent. */
    method InitNext(iindex: nat, parent: nat, ftype: FType, ghost ready: bool, ghost kept: bool)
      requires Filling(ready, kept) && iindex == h.nextInode
      modifies `h, `disk, `outcome, `icache
      ensures var slot := iindex % 32;
              && |icache| == 32 && icache == old(icache)[slot := icache[slot]] && disk == old(disk)
              && (outcome == Success || outcome == DiskFull)
              && (outcome == Success <==> ftype.File? || old(h).nextBlock + old(h).dregLen <= old(h).nblocks)
              && h == (if outcome == Success && ftype.Dir? then Bump(old(h), old(h).dregLen) else old(h))
              && (outcome == Success ==>
                    && TableShape(icache[slot]) && NodeShape(icache[slot], true)
                    && icache[slot].ftype == ftype && icache[slot].eof == 0 && icache[slot].iparent == parent
                    && NodeBlocks(icache[slot]) == (if ftype.Dir? then Run(old(h).nextBlock, h.dregLen) else [])
                    && (ftype.Dir? ==> icache[slot].regStart[0] == old(h).nextBlock))
      ensures ready && outcome != Success ==> Clean(h, disk, ino, own, InCaches())
      ensures kept && outcome != Success ==> Keeps(h.nextInode, h.nextInode)
    {
      hide Clean, Kept, NodeShape, NodeBlocks, HeaderOk;
      ghost var c := InCaches();
      FillStart(kept);
      var slot := iindex % 32;
      InitInode(slot, ftype, h.defaultPerm);
      ghost var nd := icache[slot];
      icache := icache[slot := icache[slot].(iparent := parent)];
      if outcome == Success { SameTable(nd, icache[slot], true); }
      assert icache == c.icache[slot := icache[slot]];
      if outcome != Success && kept {
        if ready { UnusedSlot(h, disk, ino, own, c, icache[slot]); }
        KeptScribble(h, disk, own, c, Upkeep(h.nextInode, h.nextInode, solid), icache[slot]);
      }
    }

    /** The new inode in its slot, with "." and ".." if it is a directory. */
    method FillNewInode(iindex: nat, parent: nat, ftype: FType, ghost ready: bool, ghost kept: bool)
      requires Filling(ready, kept) && iindex == h.nextInode
      requires ftype.Dir? || 0 < iindex
      modifies `h, `disk, `outcome, `icache, `dcaddr, `dcache, `own, `ino
      ensures (outcome == Success || outcome == DiskFull) && |disk| == |old(disk)|
      ensures outcome == Success <==> ftype.File? || old(h).nextBlock + old(h).dregLen <= old(h).nblocks
      ensures h == if outcome == Success && ftype.Dir? then Bump(old(h), old(h).dregLen) else old(h)
      ensures kept && outcome != Success ==> Keeps(iindex, iindex) && disk == old(disk)
      ensures kept && outcome == Success ==> Keeps(iindex, iindex + 1)
      ensures outcome == Success ==>
                disk == if ftype.Dir? then old(disk)[old(h).nextBlock := DirBlock(dcache)] else old(disk)
      ensures ready && outcome != Success ==>
                Clean(h, disk, ino, own, InCaches()) && Nodes0() == old(Nodes0()) && ino == old(ino)
      ensures ready && outcome == Success ==>
                && Dirty(h, disk, ino, own, InCaches())
                && NodeAdded(old(ino), ino, old(Nodes0()), Nodes0(), ftype, parent, h.dregLen, old(h).nextBlock)
    {
      hide Dirty, Kept, NodeAdded, DotBlock, NamesOk, Clean, HeaderOk, NodeShape, Sized, NodeBlocks, View, Tags,
           EntriesOf, InodesOf, FlatFrom, Tree;
      ghost var h0, disk0, own0, c := h, disk, own, InCaches();
      FillStart(kept);
      var slot := iindex % 32;
      InitNext(iindex, parent, ftype, ready, kept);
      if outcome != Success { return; }
      ghost var nd, ents := icache[slot], dcache;
      if ftype == Dir {
        StoreDots(slot, iindex, parent);
      }
      NewOwner(h0, disk0, own0, c, nd, iindex, parent, ftype, ready, kept);
    }

    /** A new inode, once it is in its slot, owns the blocks it was given. */
    ghost method NewOwner(h0: HBlock, disk0: seq<Block>, own0: seq<Tag>, c: Caches, nd: INode, iindex: nat, parent: nat,
                          ftype: FType, ready: bool, kept: bool)
      requires |c.icache| == 32 && NodeShape(nd, true) && nd.ftype == ftype && nd.eof == 0 && nd.iparent == parent
      requires NodeBlocks(nd) == if ftype.Dir? then Run(h0.nextBlock, h0.dregLen) else []
      requires icache == c.icache[iindex % 32 := if ftype.Dir? then nd.(eof := 2) else nd]
      requires h == (if ftype.Dir? then Bump(h0, h0.dregLen) else h0) && 1 <= h0.dregLen && own == own0
      requires icindex == c.icindex && icaddr == c.icaddr && xcaddr == c.xcaddr && xcache == c.xcache
      requires |c.dcache| == 128 && NamesOk(c.dcache)
      requires if ftype.Dir? then
                 && h0.nextBlock + h0.dregLen <= h0.nblocks && h0.nextBlock < |disk0| && dcaddr == h0.nextBlock
                 && dcache == DotBlock(c.dcache, iindex, parent) && disk == disk0[h0.nextBlock := DirBlock(dcache)]
               else dcaddr == c.dcaddr && dcache == c.dcache && disk == disk0
      requires kept ==>
                && Kept(h0, disk0, own0, c, Upkeep(iindex, iindex, solid))
                && iindex < 32 * |ITab(h0)| && iindex / 32 == c.icindex && BlockAt(disk0, 0).HeaderBlock?
      requires ready ==> kept && Clean(h0, disk0, ino, own0, c) && iindex == |ino|
      requires ftype.Dir? || 0 < iindex
      modifies `own, `ino
      ensures kept ==> Keeps(iindex, iindex + 1)
      ensures ready ==>
                && Dirty(h, disk, ino, own, InCaches())
                && NodeAdded(old(ino), ino, View(disk0, old(ino)), Nodes0(), ftype, parent, h.dregLen, h0.nextBlock)
    {
      hide Dirty, Kept, NodeAdded, DotBlock, NamesOk, Clean, HeaderOk, NodeShape, NodeBlocks, View, Tags;
      ghost var nd', u := icache[iindex % 32], Upkeep(iindex, iindex, solid);
      SameTable(nd, nd', true);
      if kept && ftype.Dir? {
        FilledDir(h0, disk0, ino, own0, c, u, nd', parent, c.dcache, ready);
        own := own + Tags(Dir, iindex, 0, h0.dregLen);
      }
      if kept && ftype.File? { FilledFile(h0, disk0, ino, own0, c, u, nd', parent, ready); }
      ino := ino + [nd'];
    }

    /** Save the new inode if another block is needed, and enter it in its parent. */
    method LinkInode(name: string, parent: nat, iindex: nat, ghost s: bool)
      requires Keeps(iindex, iindex + 1) && parent <= iindex && icindex < |ITab(h)|
      requires s ==>
                 Dirty(h, disk, ino, own, InCaches()) && parent < |ino| && ino[parent].ftype.Dir? && Sized(ino[parent])
      modifies `h, `disk, `outcome, `icindex, `icaddr, `icache, `dcaddr, `dcache, `own, `ino
      ensures Keeps(iindex, iindex + 1) && icindex < |ITab(h)| && |disk| == |old(disk)|
      ensures h == old(h) || h == Bump(old(h), old(h).dregLen)
      ensures s ==> (outcome == Success <==> CanAdd(old(h), old(ino)[parent])) && Dirty(h, disk, ino, own, InCaches())
      ensures s && outcome == Success ==>
                && h == Bump(old(h), EntryBlocks(old(h), old(ino)[parent]))
                && Linkage(old(ino), ino, old(Nodes0()), Nodes0(), parent, DirEntry(iindex, Pad(name)), old(h).dregLen,
                           old(h).nextBlock)
      ensures s && outcome != Success ==> ino == old(ino) && Nodes0() == old(Nodes0()) && h == old(h)
    {
      hide Dirty, Kept, Sized, CanAdd, Added, Linkage, NodeBlocks, View, FlatFrom, NodeKept, EntriesOf, InodesOf, Tree;
      ghost var c, u := InCaches(), Upkeep(iindex, iindex + 1, solid);
      KeptTable(h, disk, own, c, u, parent);
      if parent / 32 != icindex {
        KeptSwitch(h, disk, own, c, u, parent / 32);
        if s { SwitchBlock(h, disk, ino, own, c, parent / 32); }
      }
      SwitchIblock(parent / 32, true);
      if outcome != Success { return; }
      AddDirEntry(name, parent % 32, iindex, parent, iindex, iindex + 1, s);
    }

    /** The disk with inodes saved at address a, if it has a block there. */
    function Saved(d: seq<Block>, a: nat, nodes: seq<INode>): (r: seq<Block>)
      ensures |r| == |d|
    {
      if a < |d| then d[a := InodeBlock(nodes)] else d
    }

    /** Save the cached inodes, and the header with one more inode. */
    method CommitInode(ghost ready: bool, ghost kept: bool)
      requires 0 < |disk| && (ready ==> kept)
      requires kept ==> Keeps(h.nextInode, h.nextInode + 1) && icindex < |ITab(h)|
      requires ready ==> Dirty(h, disk, ino, own, InCaches()) && |ino| == h.nextInode + 1
      modifies `h, `disk, `outcome
      ensures outcome == Success && |disk| == |old(disk)|
      ensures h == old(h).(nextInode := old(h).nextInode + 1) && BlockAt(disk, 0) == HeaderBlock(h)
      ensures disk == Saved(old(disk), icaddr, icache)[0 := HeaderBlock(h)]
      ensures kept ==> Owning()
      ensures ready ==> Clean(h, disk, ino, own, InCaches()) && Nodes0() == old(Nodes0())
    {
      hide Dirty, Clean, Kept, View;
      if kept { KeptCommit(h, disk, own, InCaches(), Upkeep(h.nextInode, h.nextInode + 1, solid)); }
      if ready { SaveDirty(h, disk, ino, own, InCaches()); }
      SaveIblockC();
      if ready { SaveHeader(h, disk, ino, own, InCaches()); }
      h := h.(nextInode := h.nextInode + 1);
      var ok := WBlk(0, HeaderBlock(h));
      outcome := if ok then Success else DiskWrErr;
    }

    /** The first half of fs2_create_file: a place for the inode, and the inode in it. */
    method NewInode(parent: nat, ftype: FType, ghost ready: bool, ghost kept: bool) returns (iindex: nat)
      requires Creating(ready, kept) && (kept ==> (if h.nextInode == 0 then parent == 0 else parent < h.nextInode))
      requires (kept && h.nextInode == 0 ==> ITab(h) == []) && (ftype.Dir? || 0 < h.nextInode)
      modifies `h, `disk, `outcome, `icindex, `icaddr, `icache, `dcaddr, `dcache, `own, `ino
      ensures iindex == old(h).nextInode && |disk| == |old(disk)|
      ensures kept ==>
                (outcome == Success
                 <==> HasInodeSpace(old(h)) && old(h).nextBlock + Reserved(old(h), ftype) <= old(h).nblocks)
      ensures outcome == Success ==>
                && h == old(h).(nextBlock := old(h).nextBlock
                                             + (if kept then Reserved(old(h), ftype) else DirBlocks(old(h), ftype)),
                                regStart := h.regStart, regLen := h.regLen)
                && (!kept || InodeBlocksNeeded(old(h)) == 0 ==>
                      h.regStart == old(h).regStart && h.regLen == old(h).regLen)
      ensures outcome != Success ==> outcome == if kept then CreateRefusal(old(h)) else DiskFull
      ensures !kept ==>
                && (outcome == Success <==> old(h).nextBlock + DirBlocks(old(h), ftype) <= old(h).nblocks)
                && ITab(h) == [] && icaddr == old(icaddr)
                && (outcome == Success && ftype.Dir? ==> disk == old(disk)[old(h).nextBlock := DirBlock(dcache)])
      ensures kept && outcome == Success ==>
                && Keeps(iindex, iindex + 1) && icindex < |ITab(h)|
                && |ITab(h)| == |ITab(old(h))| + InodeBlocksNeeded(old(h))
      ensures kept && outcome != Success ==>
                && Keeps(iindex, iindex) && h.nextInode == iindex
                && (BlockAt(old(disk), 0) == HeaderBlock(old(h)) ==> BlockAt(disk, 0) == HeaderBlock(h))
      ensures ready && outcome != Success ==>
                Clean(h, disk, ino, own, InCaches()) && ino == old(ino) && Nodes0() == old(Nodes0())
      ensures ready && outcome == Success ==>
                && Dirty(h, disk, ino, own, InCaches()) && iindex == |old(ino)|
                && NodeAdded(old(ino), ino, old(Nodes0()), Nodes0(), ftype, parent, h.dregLen,
                             old(h).nextBlock + InodeBlocksNeeded(old(h)))
    {
      hide Clean, Dirty, Kept, NodeAdded, HasInodeSpace, View, NodeBlocks, DotBlock, FlatFrom, HeaderOk, EntriesOf,
           InodesOf, Saved, Tree;
      iindex := h.nextInode;
      CleanCount(h, disk, ino, own, InCaches(), ready);
      CacheNextInode(ready, kept);
      if outcome != Success { return; }
      if kept && 0 < iindex { KeptThere(h, disk, own, InCaches(), Upkeep(iindex, iindex, solid)); }
      FillNewInode(iindex, parent, ftype, ready, kept);
    }

    lemma CreatingStart(ready: bool, kept: bool)
      requires Creating(ready, kept)
      ensures 0 < |disk| && (ready ==> kept && h.nextInode == |ino|) && (!kept ==> h.nextInode == 0)
    {
      hide Kept, Clean;
      CleanCount(h, disk, ino, own, InCaches(), ready);
      if kept { KeptRoom(h, disk, own, InCaches(), Upkeep(h.nextInode, h.nextInode, solid)); }
    }

    /** fs2_create_file: a new inode of the given type, entered in its parent
        unless it is the first.  Whether the parent had room for the entry
        (`linked`) does not show in the outcome. */
    method CreateFile(name: string, parent: nat, ftype: FType, ghost ready: bool, ghost kept: bool)
      returns (ghost linked: bool)
      requires Creating(ready, kept) && (kept ==> (if h.nextInode == 0 then parent == 0 else parent < h.nextInode))
      requires (kept && h.nextInode == 0 ==> ITab(h) == []) && (ftype.Dir? || 0 < h.nextInode)
      requires ready && ino != [] ==> parent < |ino| && ino[parent].ftype.Dir? && Sized(ino[parent])
      modifies `h, `disk, `outcome, `icindex, `icaddr, `icache, `dcaddr, `dcache, `own, `ino
      ensures !kept && old(h).nextBlock + DirBlocks(old(h), ftype) <= old(h).nblocks ==>
                && outcome == Success && ITab(h) == [] && h.nextInode == 1 && |disk| == |old(disk)| > 0
                && BlockAt(disk, 0) == HeaderBlock(h) && icaddr == old(icaddr)
                && (ftype.Dir? ==>
                      disk == Saved(old(disk)[old(h).nextBlock := DirBlock(dcache)], icaddr,
                                    icache)[0 := HeaderBlock(h)])
      ensures kept ==>
                (outcome == Success
                 <==> HasInodeSpace(old(h)) && old(h).nextBlock + Reserved(old(h), ftype) <= old(h).nblocks)
      ensures kept && outcome == Success ==> Owning() && h.nextInode == old(h).nextInode + 1
      ensures kept && outcome != Success ==>
                && outcome == CreateRefusal(old(h))
                && Keeps(h.nextInode, h.nextInode) && h.nextInode == old(h).nextInode
                && (BlockAt(old(disk), 0) == HeaderBlock(old(h)) ==> BlockAt(disk, 0) == HeaderBlock(h))
      ensures outcome == Success ==> SameDefaults(old(h), h)
      ensures ready ==> Clean(h, disk, ino, own, InCaches())
      ensures ready && outcome != Success ==> ino == old(ino) && Nodes0() == old(Nodes0())
      ensures ready && outcome == Success ==>
                && Entered(old(ino), ino, old(Nodes0()), Nodes0(), parent, name, ftype, h.dregLen,
                           old(h).nextBlock + InodeBlocksNeeded(old(h)), linked)
                && (if old(ino) == [] then !linked && Charged(old(h), h, Reserved(old(h), ftype))
                    else && (linked <==> CanAdd(Bump(old(h), Reserved(old(h), ftype)), old(ino)[parent]))
                         && Charged(old(h), h, Reserved(old(h), ftype)
                                               + if linked then EntryBlocks(old(h), old(ino)[parent]) else 0))
    {
      hide *;
      linked := false;
      ghost var h0, ino0, view0, a := h, ino, Nodes0(), h.nextBlock + InodeBlocksNeeded(h);
      CreatingStart(ready, kept);
      ReservedIs(h, ftype);
      var iindex := NewInode(parent, ftype, ready, kept);
      if outcome != Success { return; }
      ghost var ino1, view1, h1 := ino, Nodes0(), h;
      if ready { ParentStays(ino0, ino1, view0, view1, parent, ftype, h.dregLen, a); }
      if iindex != 0 {
        LinkInode(name, parent, iindex, ready);
        BumpIs(h1, h1.dregLen);
        linked := outcome == Success;
      }
      if ready { EnteredBy(ino0, ino1, ino, view0, view1, Nodes0(), parent, name, ftype, h1.dregLen, a, linked); }
      ghost var h2 := h;
      CommitInode(ready, kept);
      SameTab(h2, h);
      DefaultsStay(h0, h1, h2, h);
      if ready { ChargedBy(h0, h1, h2, h, ino0, parent, ftype, linked); }
    }

    /** fs2_create_file below an inode in use, in a volume that is whole a
        directory of the tree. */
    method CreateIn(name: string, parent: nat, ftype: FType, ghost s: bool) returns (ghost linked: bool)
      requires Owning() && icindex < |ITab(h)| && parent < h.nextInode
      requires s ==> Valid() && parent in live && parent < |ino| && ino[parent].ftype.Dir?
      modifies `h, `disk, `outcome, `icindex, `icaddr, `icache, `dcaddr, `dcache, `own, `ino, `live, `pos
      ensures Owning() && (s ==> Valid())
      ensures outcome == Success
         <==> HasInodeSpace(old(h)) && old(h).nextBlock + Reserved(old(h), ftype) <= old(h).nblocks
      ensures outcome != Success ==> outcome == CreateRefusal(old(h))
      ensures s && outcome != Success ==> Nodes0() == old(Nodes0())
      ensures s && outcome == Success ==>
                && Created(old(Nodes0()), Nodes0(), parent, name, ftype, h.dregLen, linked)
                && (linked <==> CanAdd(Bump(old(h), Reserved(old(h), ftype)), old(ino)[parent]))
                && Linking(old(h), h, old(ino), ino, parent, ftype, linked)
    {
      hide Valid, Kept, Clean, HasInodeSpace, CanAdd, Tree, Entered, Created, View, Sized, Linking, EntriesOf,
           InodesOf, FlatFrom;
      ghost var ino0, view0, live0, pos0, h0 := ino, Nodes0(), live, pos, h;
      if s { TreeStart(parent); }
      OwnParts();
      linked := CreateFile(name, parent, ftype, s, true);
      if outcome != Success {
        KeepsOwning(old(disk), h0);
        if s { CleanValid(); }
        return;
      }
      if s {
        EnteredTree(ino0, view0, live0, pos0, ino, Nodes0(), parent, name, ftype, h.dregLen,
                    h0.nextBlock + InodeBlocksNeeded(h0), linked);
        EnteredLinking(h0, h, ino0, ino, view0, Nodes0(), parent, name, ftype, linked);
        live := if linked then live + {|ino0|} else live;
        pos := pos + [if linked then |view0[parent].entries| else 0];
        CleanValid();
      }
    }

    lemma TreeStart(p: nat)
      requires Valid() && p in live
      ensures Clean(h, disk, ino, own, InCaches()) && Tree(ino, Nodes0(), live, pos) && ino != []
      ensures h.nextInode == |ino|
      ensures p < |ino| && Sized(ino[p]) && (ino[p].ftype.Dir? <==> Nodes0()[p].DirNode?)
    {
      hide Tree, Clean, Consistent, Sized, NodeView, Owning, ICacheOk, DCacheOk, XCacheOk;
      Whole();
      ConsistentClean(h, disk, ino, own, live, pos, InCaches());
      LiveNode(h, disk, ino, own, live, pos, p);
    }

    lemma CleanValid()
      requires Clean(h, disk, ino, own, InCaches()) && ino != [] && Tree(ino, Nodes0(), live, pos) && Owning()
      ensures Valid()
    {
      hide Tree, Clean, Owning, Consistent, ICacheOk, DCacheOk, XCacheOk;
      CleanConsistent(h, disk, ino, own, live, pos, InCaches());
    }

    lemma KeepsOwning(disk0: seq<Block>, h0: HBlock)
      requires Keeps(h.nextInode, h.nextInode) && h.nextInode == h0.nextInode && 1 <= h0.nextInode
      requires BlockAt(disk0, 0) == HeaderBlock(h0)
      requires BlockAt(disk0, 0) == HeaderBlock(h0) ==> BlockAt(disk, 0) == HeaderBlock(h)
      ensures Owning()
    {
      hide Keeps;
    }

    /** fs2_create: a file or directory at the given path, if nothing is there. */
    method Create(ftype: FType, path: string) returns (ok: bool, ghost par: nat, ghost linked: bool)
      requires Usable()
      modifies `h, `disk, `outcome, `icindex, `icaddr, `icache, `dcaddr, `dcache, `own, `ino, `live, `pos
      ensures Owning() && (ok <==> outcome == Success)
      ensures old(Valid()) ==> Valid()
      ensures old(Valid()) && !ok ==> Nodes0() == old(Nodes0())
      ensures old(Valid()) && ok ==>
                Target(old(Nodes0()), path) == Miss(NoFile) && path != "" && path[|path| - 1] != '/'
      ensures old(Valid()) && Target(old(Nodes0()), path).Hit? ==> outcome == UnexpectedFile
      ensures old(Valid()) && Target(old(Nodes0()), path).Miss? && Target(old(Nodes0()), path).why != NoFile ==>
                outcome == Target(old(Nodes0()), path).why
      ensures old(Valid()) && Target(old(Nodes0()), path) == Miss(NoFile) && path[|path| - 1] == '/' ==>
                outcome == InvalidPath
      ensures old(Valid()) && Target(old(Nodes0()), path) == Miss(NoFile) && path[|path| - 1] != '/' ==>
                match CreateParent(old(Nodes0()), path)
                case Miss(o) => outcome == o != Success
                case Hit(p, _) =>
                  && p == par < |old(ino)|
                  && (ok <==> HasInodeSpace(old(h)) && old(h).nextBlock + Reserved(old(h), ftype) <= old(h).nblocks)
                  && (!ok ==> outcome == CreateRefusal(old(h)))
                  && (ok ==> Created(old(Nodes0()), Nodes0(), p, NewName(path), ftype, h.dregLen, linked))
                  && (ok ==> (linked <==> CanAdd(Bump(old(h), Reserved(old(h), ftype)), old(ino)[p])))
                  && (ok ==> Linking(old(h), h, old(ino), ino, p, ftype, linked))
    {
      hide Valid, Owning, Resolve, HasInodeSpace, Reserved, CanAdd, Created, LastSlash, StripEnd, NewName, CreateParent,
           NodeOnDisk, Linking, View;
      ok, linked, par := false, false, 0;
      ghost var s := Valid();
      var ignored, p;
      p, ignored := FindFile(path, 0);
      if outcome == Success {
        outcome := UnexpectedFile;
        return;
      }
      if outcome != NoFile { return; }
      if path[|path| - 1] == '/' {
        outcome := InvalidPath;
        return;
      }
      var name;
      p, name := FindParent(path, s);
      if outcome != Success { return; }
      par := p;
      linked := CreateIn(name, p, ftype, s);
      ok := outcome == Success;
    }

    /** The middle of fs2_create: split the path and resolve the part before the
        last '/', or take the root if that part is at most one character long. */
    method FindParent(path: string, ghost s: bool) returns (p: nat, name: string)
      requires Usable() && icindex < |ITab(h)| && path != "" && path[|path| - 1] != '/'
      requires s ==> Valid() && Resolve(Nodes0(), 0, path) == Miss(NoFile)
      modifies `outcome, `icindex, `icaddr, `icache, `dcaddr, `dcache, `h, `disk
      ensures Usable() && h == old(h) && disk == old(disk) && icindex < |ITab(h)|
      ensures name == NewName(path) && (outcome == Success ==> p < h.nextInode)
      ensures s ==> Valid()
      ensures s ==> match CreateParent(Nodes0(), path)
                    case Miss(o) => outcome == o != Success
                    case Hit(q, _) => outcome == Success && p == q && p in live && p < |ino| && ino[p].ftype.Dir?
    {
      hide Valid, Owning, Resolve, LastSlash, StripEnd, View, NodeOnDisk, AllInUse, ListsInUse;
      ghost var view := Nodes0();
      var ignored;
      AnyRoot();
      var split := FindSplit(path);
      name := if split == 0 then path else path[split + 1..];
      split := StripSlashes(path, split);
      if split == 0 {
        p := 0;
        outcome := Success;
      } else {
        p, ignored := FindFile(path[..split + 1], 0);
        if outcome != Success { return; }
        if s { MissingBelow(view, path); }
      }
      if s { ParentDir(p); }
    }

    lemma ParentDir(p: nat)
      requires Valid() && (p == 0 || p in live)
      ensures p in live && p < |ino| == |Nodes0()| && (p == 0 || Nodes0()[p].DirNode? ==> ino[p].ftype.Dir?)
    {
      hide Consistent, Owning, ICacheOk, DCacheOk, XCacheOk, NodeView;
      Whole();
      RootLive(h, disk, ino, own, live, pos);
      LiveNode(h, disk, ino, own, live, pos, p);
      RootIsDir(h, disk, ino, own, live, pos);
    }

    // ------------------------------------------------------------- removal

    /** The search loop of fs2_unlink. */
    method FindLink(dinode: INode, x: nat, ghost d: nat) returns (found: bool, k: nat)
      requires Owning() && NodeKept(own, d, dinode, solid) && dinode.ftype.Dir? && 0 < x < h.nextInode
      modifies `outcome, `dcaddr, `dcache
      ensures Owning()
      ensures found ==> dinode.regStart[0] != 0 && k < dinode.eof && dcaddr == At(NodeBlocks(dinode), k / 128)
      ensures found ==> dcache == EntriesOf(BlockAt(disk, dcaddr))
      ensures Sized(dinode) ==>
                var es := DirEntries(disk, NodeBlocks(dinode), dinode.eof);
                if found then SeenLink(es, x, k) else NoLink(es, x, |es|)
    {
      hide Owning, WalkAt, NodeKept, Sized, NodeBlocks, NodeView, InReach, EntriesOf, NamesOk;
      ghost var blocks := NodeBlocks(dinode);
      ghost var es := DirEntries(disk, blocks, dinode.eof);
      ScanStart(disk, own, d, dinode, solid);
      k, found := 0, false;
      var i, j := 0, 0;
      ghost var b := 0;
      while k < dinode.eof
        invariant 0 <= k <= dinode.eof && Owning() && 128 * b - 128 < k <= 128 * b
        invariant b <= |blocks| ==> WalkAt(dinode.regStart, dinode.regLen, b, i, j)
        invariant b <= |blocks| || (b == 1 && dinode.regStart[0] == 0 && dinode.eof <= 2 && dcaddr == 0)
        invariant k < 128 * b ==> dcaddr == At(blocks, b - 1)
        invariant b <= |blocks| ==> NoLink(es, x, k)
        invariant b <= |blocks| && k < 128 * b ==> dcache == EntriesOf(BlockAt(disk, dcaddr))
      {
        BlockIndex(k, b);
        if k % 128 == 0 {
          i, j := WalkDblock(dinode, d, b, i, j);
          b := b + 1;
        }
        ComparedSlot(k);
        CachedEntries(k % 32);
        assert b <= |blocks| ==> dcache[k % 32] == es[128 * (k / 128) + k % 32];
        if dcache[k % 32].inodeIndex == x { return true, k; }
        k := k + 1;
      }
      found := false;
    }

    /** The entry fs2_unlink moves into a gap at index k. */
    method LastEntry(dinode: INode, k: nat, last: nat, ghost p: nat, ghost s: bool) returns (le: DirEntry)
      requires Owning() && NodeKept(own, p, dinode, solid) && dinode.ftype.Dir? && dinode.regStart[0] != 0
      requires k < last == dinode.eof - 1 && |dcache| == 128 && NamesOk(dcache)
      requires s ==>
                && Dirty(h, disk, ino, own, InCaches()) && p < |ino| && dinode == ino[p] && Sized(dinode)
                && dcache == EntriesOf(BlockAt(disk, At(NodeBlocks(dinode), k / 128)))
      modifies `outcome, `xcaddr, `xcache
      ensures Owning() && |le.name| == 28
      ensures s ==>
                && Dirty(h, disk, ino, own, InCaches())
                && (var es, blocks := DirEntries(disk, NodeBlocks(dinode), dinode.eof), NodeBlocks(dinode);
                    && le == Replacement(es, blocks, k, old(xcaddr), old(xcache))
                    && LastLoaded(es, blocks, k, old(xcaddr), old(xcache), xcaddr, xcache))
    {
      hide Dirty, Owning, NodeBlocks, NodeKept, Flat, Replacement, LastLoaded, EntriesOf, DirEntries;
      ghost var x0, c0 := xcaddr, xcache;
      DirBlockKept(own, p, dinode, solid, last);
      OwnSize();
      if k / 128 != last / 128 {
        if s { LoadOtherBlock(h, disk, ino, own, InCaches(), p, last / 128); }
        var ldbaddr := FindBlk(dinode.regStart, dinode.regLen, 23, last / 128);
        LoadGpC(ldbaddr, false);
        le := EntriesOf(xcache)[last % 128];
      } else {
        le := dcache[last % 128];
      }
      if s { LastRead(disk, NodeBlocks(dinode), dinode.eof, k, x0, c0, xcaddr, xcache, le); }
    }

    lemma OwnSize()
      requires Owning()
      ensures 0 < |own| == h.nextBlock <= |disk| < NO_BLOCK
    {
      hide KeptDisk, KeptCache, KeptDirs;
    }

    /** The removing half of fs2_unlink: entry k goes, the last one takes its place. */
    method TakeOut(slot: nat, k: nat, ghost p: nat, ghost s: bool)
      requires Owning() && p < h.nextInode && p / 32 == icindex < |ITab(h)| && p % 32 == slot && |icache| == 32
      requires TableShape(icache[slot]) && icache[slot].ftype.Dir? && icache[slot].regStart[0] != 0
      requires k < icache[slot].eof
      requires dcaddr == At(NodeBlocks(icache[slot]), k / 128)
      requires s ==>
                && Dirty(h, disk, ino, own, InCaches()) && p < |ino| && icache[slot] == ino[p] && Sized(ino[p])
                && dcache == EntriesOf(BlockAt(disk, dcaddr))
      modifies `disk, `outcome, `icache, `dcache, `xcaddr, `xcache, `ino
      ensures Owning() && outcome == Success && BlockAt(disk, 0) == BlockAt(old(disk), 0)
      ensures s ==>
                && Dirty(h, disk, ino, own, InCaches())
                && EntryTaken(old(ino), ino, old(Nodes0()), Nodes0(), p, k, old(xcaddr), old(xcache), xcaddr, xcache)
    {
      hide Dirty, Owning, Sized, EntryTaken, NodeBlocks, NodeKept, Replacement, LastLoaded, View, NodeOk, EntriesOf,
           Kept;
      HandDir(p);
      var dinode := icache[slot];
      var last := dinode.eof - 1;
      DirBlockKept(own, p, dinode, solid, k);
      CachedEntries(k % 128);
      ghost var es, x0, c0 := DirEntries(disk, NodeBlocks(dinode), dinode.eof), xcaddr, xcache;
      if s { KeptAsLast(disk, NodeBlocks(dinode), dinode.eof, k, xcaddr, xcache); }
      var le := dcache[k % 128];
      if k != last { le := LastEntry(dinode, k, last, p, s); }
      FillGap(slot, k, le, p, s, x0, c0);
    }

    /** Entry k becomes le, and there is one entry less. */
    method FillGap(slot: nat, k: nat, le: DirEntry, ghost p: nat, ghost s: bool, ghost x0: nat, ghost c0: Block)
      requires Owning() && p < h.nextInode && p / 32 == icindex < |ITab(h)| && p % 32 == slot && |icache| == 32
      requires TableShape(icache[slot]) && icache[slot].ftype.Dir? && icache[slot].regStart[0] != 0
      requires k < icache[slot].eof
      requires dcaddr == At(NodeBlocks(icache[slot]), k / 128)
      requires |dcache| == 128 && |le.name| == 28
      requires s ==>
                && Dirty(h, disk, ino, own, InCaches()) && p < |ino| && icache[slot] == ino[p] && Sized(ino[p])
                && dcache == EntriesOf(BlockAt(disk, dcaddr))
                && (var es, blocks := DirEntries(disk, NodeBlocks(ino[p]), ino[p].eof), NodeBlocks(ino[p]);
                    && le == Replacement(es, blocks, k, x0, c0) && LastLoaded(es, blocks, k, x0, c0, xcaddr, xcache))
      modifies `disk, `outcome, `icache, `dcache, `ino
      ensures Owning() && outcome == Success && BlockAt(disk, 0) == BlockAt(old(disk), 0)
      ensures s ==>
                && Dirty(h, disk, ino, own, InCaches())
                && EntryTaken(old(ino), ino, old(Nodes0()), Nodes0(), p, k, x0, c0, xcaddr, xcache)
    {
      hide Dirty, Owning, Sized, EntryTaken, NodeBlocks, NodeKept, Replacement, LastLoaded, View, NodeOk, EntriesOf,
           Kept, DirEntries, Dropped, InodesOf, FlatFrom, Tree;
      ghost var c, dinode := InCaches(), icache[slot];
      HandDir(p);
      DirBlockKept(own, p, icache[slot], solid, k);
      OwnParts();
      CachedEntries(k % 128);
      OtherName(k % 128, le);
      if s {
        RemoveEntry(h, disk, ino, own, c, p, k, dcache[k % 128 := le], le);
        TakenIs(disk, ino, p, k, le, x0, c0, xcaddr, xcache);
      }
      KeptEntry(h, disk, own, c, Upkeep(h.nextInode, h.nextInode, solid), p, dcaddr, dcache[k % 128 := le],
                icache[slot].eof - 1);
      StoreLast(slot, k, le);
      if s { ino := ino[p := icache[slot]]; }
      NowOwning();
    }

    /** The entry goes into the cached block, which is saved, and the end of file
        moves down by one. */
    method StoreLast(slot: nat, k: nat, le: DirEntry)
      requires |dcache| == 128 && dcaddr < |disk| && slot < |icache| && 0 < icache[slot].eof
      modifies `disk, `outcome, `icache, `dcache
      ensures outcome == Success && dcache == old(dcache)[k % 128 := le]
      ensures disk == old(disk)[dcaddr := DirBlock(dcache)]
      ensures icache == old(icache)[slot := old(icache)[slot].(eof := old(icache)[slot].eof - 1)]
    {
      dcache := dcache[k % 128 := le];
      icache := icache[slot := icache[slot].(eof := icache[slot].eof - 1)];
      SaveDblockC();
    }

    lemma HandDir(p: nat)
      requires Owning() && p < h.nextInode && p / 32 == icindex && |icache| == 32
      ensures NodeKept(own, p, icache[p % 32], solid)
    {
      hide Kept, NodeKept;
      KeptInode(h, disk, own, InCaches(), Upkeep(h.nextInode, h.nextInode, solid), p);
    }

    lemma NowOwning()
      requires Keeps(h.nextInode, h.nextInode) && 1 <= h.nextInode && BlockAt(disk, 0) == HeaderBlock(h)
      ensures Owning()
    {
      hide Keeps;
    }

    /** Another entry in the cached directory block. */
    lemma OtherName(m: nat, e: DirEntry)
      requires |dcache| == 128 && NamesOk(dcache) && m < 128 && |e.name| == 28
      ensures NamesOk(dcache[m := e])
    {
    }

    /** fs2_unlink: take inode x out of directory p, whose inode is cached in
        `slot`, and fill the gap with the last entry. */
    method Unlink(slot: nat, x: nat, ghost p: nat, ghost s: bool) returns (ghost k: nat)
      requires Owning() && p < h.nextInode && p / 32 == icindex < |ITab(h)| && p % 32 == slot && 0 < x < h.nextInode
      requires |icache| == 32 && TableShape(icache[slot]) && icache[slot].ftype.Dir?
      requires s ==> Dirty(h, disk, ino, own, InCaches()) && p < |ino| && Sized(ino[p])
      modifies `disk, `outcome, `icache, `dcaddr, `dcache, `xcaddr, `xcache, `ino
      ensures Owning() && (outcome == Success || outcome == NoFile)
      ensures outcome == NoFile ==>
                && disk == old(disk) && icache == old(icache) && ino == old(ino)
                && xcaddr == old(xcaddr) && xcache == old(xcache)
      ensures old(icache)[slot].regStart[0] == 0 ==> outcome == NoFile
      ensures s ==>
                && Dirty(h, disk, ino, own, InCaches()) && |ino| == |old(ino)|
                && Unlinking(old(ino), ino, old(Nodes0()), Nodes0(), p, x, k,
                             old(xcaddr), old(xcache), xcaddr, xcache, outcome)
    {
      hide Dirty, Owning, Sized, NoLink, SeenLink, GapFilled, NodeBlocks, NodeKept, DCacheOk, NodeOk, Owns, View;
      HandDir(p);
      if s {
        DirtySlot(h, disk, ino, own, InCaches(), p);
        DirInHand(h, disk, ino, own, InCaches(), p);
      }
      ghost var c := InCaches();
      var found, kk := FindLink(icache[slot], x, p);
      k := kk;
      if s {
        Coherence();
        OtherDcache(h, disk, ino, own, c, dcaddr, dcache);
      }
      if !found { outcome := NoFile; return; }
      TakeOut(slot, kk, p, s);
    }

    /** Cache the inode block of directory p, saving the cached one first if it
        has been changed. */
    method CacheParent(p: nat, move: bool, ghost s: bool)
      requires Owning() && icindex < |ITab(h)| && p < h.nextInode && NodeOnDisk(h, disk, p).ftype.Dir?
      requires s ==> Dirty(h, disk, ino, own, InCaches()) && p < |ino|
      requires s && !move ==> forall m :: 0 <= m < |ino| ==> NodeOnDisk(h, disk, m) == ino[m]
      modifies `h, `disk, `outcome, `icindex, `icaddr, `icache
      ensures Owning() && outcome == Success && h == old(h) && icindex == p / 32 < |ITab(h)|
      ensures |icache| == 32 && TableShape(icache[p % 32]) && icache[p % 32].ftype.Dir?
      ensures p / 32 == old(icindex) ==> icache == old(icache) && disk == old(disk)
      ensures !move ==> disk == old(disk)
      ensures s ==> Dirty(h, disk, ino, own, InCaches()) && Nodes0() == old(Nodes0())
      ensures s && disk != old(disk) ==> forall m :: 0 <= m < |ino| ==> NodeOnDisk(h, disk, m) == ino[m]
    {
      hide Dirty, View, NodeOnDisk, Kept, Owning, NodeKept, EntriesOf, InodesOf, FlatFrom, Tree;
      ghost var c, u := InCaches(), Upkeep(h.nextInode, h.nextInode, solid);
      OwnParts();
      KeptTable(h, disk, own, c, u, p);
      if p / 32 != icindex {
        if move {
          KeptParent(h, disk, own, c, u, p);
          if s { SwitchBlock(h, disk, ino, own, c, p / 32); }
        } else {
          KeptLoad(h, disk, own, c, u, p / 32);
          if s { LoadClean(h, disk, ino, own, c, p / 32); }
        }
      }
      SwitchIblock(p / 32, move);
      KeptInode(h, disk, own, InCaches(), u, p);
      NowOwning();
    }

    /** memset of the region starts of the cached inode. */
    method WipeInode(ind: nat, ghost s: bool)
      requires Owning() && ind < h.nextInode && ind / 32 == icindex && |icache| == 32 && TableShape(icache[ind % 32])
      requires icache[ind % 32].ftype.Dir? ==> icache[ind % 32].eof <= 2
      requires s ==> Dirty(h, disk, ino, own, InCaches()) && ind < |ino|
      modifies `icache, `ino
      ensures Owning() && |icache| == 32 && TableShape(icache[ind % 32]) && icache[ind % 32].regStart[0] == 0
      ensures s ==>
                && Dirty(h, disk, ino, own, InCaches()) && ino == old(ino)[ind := Wiped(old(ino)[ind])]
                && ind < |old(Nodes0())| && Nodes0() == old(Nodes0())[ind := Nodes0()[ind]]
                && (Nodes0()[ind].DirNode? <==> old(Nodes0())[ind].DirNode?)
                && Cleared(old(Nodes0())[ind], Nodes0()[ind])
    {
      hide Dirty, NodeView, Kept;
      ghost var c := InCaches();
      KeptWipe(h, disk, own, c, Upkeep(h.nextInode, h.nextInode, solid), ind);
      if s {
        BlockOfInode(h, disk, ino, own, c, ind);
        DirtySlot(h, disk, ino, own, c, ind);
        WipeNode(h, disk, ino, own, c, ind);
        SetView(disk, ino, ind, Wiped(ino[ind]));
        SameKind(disk, ino[ind], Wiped(ino[ind]));
        WipedView(disk, ino[ind]);
      }
      icache := icache[ind % 32 := Wiped(icache[ind % 32])];
      if s { ino := ino[ind := Wiped(ino[ind])]; }
    }

    /** fs2_rm from the wiping of the inode on: its regions are forgotten unless
        it is the last inode, then it is unlinked from directory p. */
    method DropInode(ind: nat, p: nat, ghost s: bool) returns (ghost k: nat)
      requires Owning() && icindex == ind / 32 < |ITab(h)| && ind < h.nextInode && p < h.nextInode && ind != 0
      requires NodeOnDisk(h, disk, p).ftype.Dir? && |icache| == 32 && TableShape(icache[ind % 32])
      requires icache[ind % 32].ftype.Dir? ==> icache[ind % 32].eof <= 2
      requires s ==> Clean(h, disk, ino, own, InCaches()) && h.nextInode == |ino| && ino[p].ftype.Dir? && Sized(ino[p])
      modifies `h, `disk, `outcome, `icindex, `icaddr, `icache, `dcaddr, `dcache, `xcaddr, `xcache, `ino
      ensures Owning() && h == old(h) && (outcome == Success || outcome == NoFile)
      ensures s ==>
                && |ino| == |old(ino)|
                && Dropping(old(ino), ino, old(Nodes0()), Nodes0(), p, ind, k, old(xcaddr), old(xcache), xcaddr, xcache,
                            outcome, ind + 1 < |old(ino)|)
      ensures s && (outcome == Success || ind + 1 == |ino|) ==> Clean(h, disk, ino, own, InCaches())
      ensures s && outcome != Success && old(AllInUse()) ==> AllInUse()
    {
      hide Clean, Dirty, Sized, Unlinking, Dropping, View, NodeOnDisk, Owning, Pending, ListsInUse, ViewInUse, Cleared,
           EntriesOf, InodesOf, FlatFrom, Tree;
      ghost var ino0, view0, x0, c0, disk0, c := ino, Nodes0(), xcaddr, xcache, disk, InCaches();
      OwnParts();
      if s { CleanDirty(h, disk, ino, own, InCaches()); }
      var move := ind + 1 < h.nextInode;
      if move { WipeInode(ind, s); }
      ghost var ino1, view1 := ino, Nodes0();
      k := DropLink(ind, p, move, s);
      if s {
        DroppingIs(ino0, ino1, ino, view0, view1, Nodes0(), p, ind, k, x0, c0, xcaddr, xcache, outcome, move);
        if outcome != Success { StillInUse(disk0, c, ino0, view0, p, ind, k, x0, c0, move); }
      }
    }

    lemma StillInUse(disk0: seq<Block>, c: Caches, ino0: seq<INode>, view0: seq<Node>, p: nat, x: nat, k: nat, x0: nat,
                     c0: Block, move: bool)
      requires Clean(h, disk0, ino0, own, c) && view0 == View(disk0, ino0) && |ino| == |ino0| && h.nextInode == |ino|
      requires |c.icache| == 32 && forall i :: 0 <= i < |ino0| && i / 32 == c.icindex ==> c.icache[i % 32] == ino0[i]
      requires forall i :: 0 <= i < |ino0| ==> NodeOnDisk(h, disk0, i) == ino0[i]
      requires Dropping(ino0, ino, view0, Nodes0(), p, x, k, x0, c0, xcaddr, xcache, NoFile, move) && Pending(disk0)
      ensures ListsInUse(h, disk0, c.icindex, c.icache) ==> AllInUse()
    {
      hide Clean, View, NodeOnDisk, ListsInUse, ViewInUse, Dropping;
      InUseShows(h, disk0, ino0, c.icindex, c.icache);
      if ListsInUse(h, disk0, c.icindex, c.icache) {
        FailedInUse(ino0, ino, view0, Nodes0(), p, x, k, x0, c0, xcaddr, xcache, move);
        StillListed(h, disk0, disk, ino, c.icindex, c.icache, icindex, icache);
      }
    }

    /** fs2_rm behind the wiping: unlink inode ind from directory p, and save. */
    method DropLink(ind: nat, p: nat, move: bool, ghost s: bool) returns (ghost k: nat)
      requires Owning() && icindex == ind / 32 < |ITab(h)| && ind < h.nextInode && p < h.nextInode && ind != 0
      requires NodeOnDisk(h, disk, p).ftype.Dir? && |icache| == 32 && TableShape(icache[ind % 32])
      requires move ==> icache[ind % 32].regStart[0] == 0
      requires s ==>
                 Dirty(h, disk, ino, own, InCaches()) && h.nextInode == |ino| && (ind != p || !move ==> Sized(ino[p]))
      requires s && !move ==> forall m :: 0 <= m < |ino| ==> NodeOnDisk(h, disk, m) == ino[m]
      modifies `h, `disk, `outcome, `icindex, `icaddr, `icache, `dcaddr, `dcache, `xcaddr, `xcache, `ino
      ensures Owning() && h == old(h) && (outcome == Success || outcome == NoFile)
      ensures move && ind == p ==>
                && outcome == NoFile && ino == old(ino) && xcaddr == old(xcaddr) && xcache == old(xcache)
                && (s ==> Nodes0() == old(Nodes0()))
      ensures s && !(move && ind == p) ==>
                Unlinking(old(ino), ino, old(Nodes0()), Nodes0(), p, ind, k, old(xcaddr), old(xcache), xcaddr, xcache,
                          outcome)
      ensures s ==> |ino| == |old(ino)| && (outcome == Success || !move ==> Clean(h, disk, ino, own, InCaches()))
      ensures s && outcome != Success ==> Pending(old(disk))
    {
      hide *;
      CacheParent(p, move, s);
      if s { NowPending(old(disk)); }
      k := Unlink(p % 32, ind, p, s && !(move && ind == p));
      if outcome != Success {
        OwnParts();
        if s && !move { DirtyClean(h, disk, ino, own, InCaches()); }
        return;
      }
      SaveUnlinked(s);
    }

    /** The cached inodes are those of the table, and the disk holds the table too,
        or is as it was. */
    ghost predicate Pending(disk0: seq<Block>)
      reads `h, `disk, `ino, `icindex, `icache
    {
      && (disk == disk0 || forall m :: 0 <= m < |ino| ==> NodeOnDisk(h, disk, m) == ino[m])
      && |icache| == 32 && forall m :: 0 <= m < |ino| && m / 32 == icindex ==> icache[m % 32] == ino[m]
    }

    lemma NowPending(disk0: seq<Block>)
      requires Dirty(h, disk, ino, own, InCaches())
      requires disk == disk0 || forall m :: 0 <= m < |ino| ==> NodeOnDisk(h, disk, m) == ino[m]
      ensures Pending(disk0)
    {
      hide NodeOnDisk, Owned, Nodes, DCacheOk, XCacheOk;
    }

    /** The saving at the end of fs2_rm. */
    method SaveUnlinked(ghost s: bool)
      requires Owning() && icindex < |ITab(h)| && (s ==> Dirty(h, disk, ino, own, InCaches()) && h.nextInode == |ino|)
      modifies `disk, `outcome
      ensures Owning() && outcome == Success
      ensures s ==> Clean(h, disk, ino, own, InCaches()) && Nodes0() == old(Nodes0())
    {
      hide Clean, Dirty, View, Kept, NodeOnDisk;
      KeptSave(h, disk, own, InCaches(), Upkeep(h.nextInode, h.nextInode, solid));
      if s { SaveDirty(h, disk, ino, own, InCaches()); }
      SaveIblockC();
      if s { DirtyClean(h, disk, ino, own, InCaches()); }
    }

    /** The removal proper, once path and type have been checked. */
    method RemoveLeaf(ind: nat, p: nat, ghost s: bool)
      requires Owning() && icindex == ind / 32 < |ITab(h)| && ind < h.nextInode && p < h.nextInode && ind != 0
      requires NodeOnDisk(h, disk, p).ftype.Dir? && |icache| == 32 && TableShape(icache[ind % 32])
      requires icache[ind % 32].ftype.Dir? ==> icache[ind % 32].eof <= 2
      requires s ==> Leaf(ind, p)
      modifies `h, `disk, `outcome, `icindex, `icaddr, `icache, `dcaddr, `dcache, `xcaddr, `xcache, `ino, `live, `pos
      ensures Owning() && h == old(h) && (outcome == Success || outcome == NoFile)
      ensures s ==> Removed(old(Nodes0()), old(ino), old(live), ind, p, old(xcaddr), old(xcache))
      ensures s && outcome == Success ==> Clean(h, disk, ino, own, InCaches())
      ensures s && outcome != Success && old(AllInUse()) ==> AllInUse()
    {
      hide Valid, Owning, Clean, Removed, View, Sized, NodeOnDisk, Dropping, Leaf, ListsInUse;
      ghost var view, ino0, live0, x0, c0 := Nodes0(), ino, live, xcaddr, xcache;
      if s { LeafStart(ind, p); }
      ghost var k := DropInode(ind, p, s);
      if s { Settle(view, ino0, ind, p, k, x0, c0); }
    }

    /** A removable inode and the directory its path ends in. */
    ghost predicate Leaf(c: nat, p: nat)
      reads `h, `disk, `ino, `own, `live, `pos, `solid, `icindex, `icaddr, `icache, `dcaddr, `dcache, `xcaddr,
            `xcache
    {
      && Valid() && c in live && p in live && c < |ino| && p < |ino| && c != 0 && (c != p ==> ino[c].iparent == p)
      && Nodes0()[p].DirNode? && (Nodes0()[c].DirNode? ==> |Nodes0()[c].entries| <= 2)
    }

    lemma LeafStart(c: nat, p: nat)
      requires Leaf(c, p)
      ensures Clean(h, disk, ino, own, InCaches()) && Tree(ino, Nodes0(), live, pos) && h.nextInode == |ino|
      ensures c in live && p in live && c < |ino| && p < |ino| && c != 0 && (c != p ==> ino[c].iparent == p)
      ensures |Nodes0()| == |ino| && Nodes0()[p].DirNode? && (Nodes0()[c].DirNode? ==> |Nodes0()[c].entries| <= 2)
      ensures ino[p].ftype.Dir? && Sized(ino[p])
    {
      hide Valid, Clean, Tree, Sized;
      TreeStart(p);
    }

    /** What a removal of inode c from directory p has come to; the arguments with
        a 0 are from before. */
    ghost predicate Removed(view0: seq<Node>, ino0: seq<INode>, live0: set<nat>, c: nat, p: nat, xcaddr0: nat,
                            xcache0: Block)
      reads this
    {
      && c < |view0| == |ino0| && p < |view0| && view0[p].DirNode?
      && (c != p ==>
            Removal(view0, Nodes0(), ino0, ino, c, p, xcaddr0, xcache0, xcaddr, xcache, outcome,
                    Valid(), live == live0 - {c}, LostLast(view0, Nodes0(), ino, live0, c, p)))
      && (c == p ==> |view0[c].entries| == 2 && SelfRemoval(view0, Nodes0(), ino, c, outcome))
    }

    /** The tree after a removal: it goes on without c if the cache was fresh. */
    ghost method Settle(view: seq<Node>, ino0: seq<INode>, c: nat, p: nat, k: nat, x0: nat, c0: Block)
      requires Tree(ino0, view, live, pos) && c in live && p in live && c < |ino0| && p < |ino0| && c != 0
      requires c != p ==> ino0[c].iparent == p
      requires |view| == |ino0| && view[p].DirNode? && (view[c].DirNode? ==> |view[c].entries| <= 2)
      requires Owning() && |ino| == |ino0| && (outcome == Success || outcome == NoFile)
      requires Dropping(ino0, ino, view, Nodes0(), p, c, k, x0, c0, xcaddr, xcache, outcome, c + 1 < |ino0|)
      requires outcome == Success || c + 1 == |ino0| ==> Clean(h, disk, ino, own, InCaches())
      modifies `live, `pos
      ensures Removed(view, ino0, old(live), c, p, x0, c0)
    {
      hide Valid, Owning, Clean, Tree, Removal, SelfRemoval, Dropping, View, LostLast, FreshLast, Moved, NodeBlocks;
      if c == p {
        RemovalSelf(ino0, view, ino, Nodes0(), live, pos, c, k, x0, c0, xcaddr, xcache, outcome, c + 1 < |ino0|);
      } else if outcome == Success {
        RemovalFound(h, disk, ino0, view, ino, own, live, pos, InCaches(), p, c, k, x0, c0, c + 1 < |ino0|);
        if FreshLast(view[p].entries, NodeBlocks(ino0[p]), k, x0, c0) {
          live, pos := live - {c}, Moved(pos, view[p].entries, k);
          CleanValid();
        }
        FoundIs(view, Nodes0(), ino0, ino, c, p, k, x0, c0, xcaddr, xcache, c + 1 < |ino0|,
                Valid(), live == old(live) - {c}, LostLast(view, Nodes0(), ino, old(live), c, p));
      } else {
        if c + 1 == |ino0| {
          MissedIs(ino0, ino, view, Nodes0(), p, c, k, x0, c0, xcaddr, xcache);
          CleanValid();
        }
        RemovalMissed(ino0, view, ino, Nodes0(), live, pos, p, c, k, x0, c0, xcaddr, xcache, c + 1 < |ino0|,
                      Valid(), live == old(live) - {c}, LostLast(view, Nodes0(), ino, old(live), c, p));
      }
    }

    /** fs2_rm: remove a file or an empty directory.  What the unlinking of inode
        c from directory p comes to is said by Removed; in any case the blocks
        keep their owners. */
    method Rm(path: string) returns (ok: bool)
      requires Usable()
      modifies `h, `disk, `outcome, `icindex, `icaddr, `icache, `dcaddr, `dcache, `xcaddr, `xcache, `ino, `live, `pos
      ensures Owning() && h == old(h) && (ok <==> outcome == Success)
      ensures old(Valid()) && Target(old(Nodes0()), path).Miss? ==>
                outcome == Target(old(Nodes0()), path).why != Success && Valid() && Nodes0() == old(Nodes0())
      ensures old(Valid()) && Target(old(Nodes0()), path).Hit? ==>
                var view, t := old(Nodes0()), Target(old(Nodes0()), path);
                var c, p := t.child, t.parent;
                && c < |view| && p < |view| && view[p].DirNode?
                && (c == 0 ==> outcome == BadPermissions && Valid() && Nodes0() == view)
                && (c != 0 && view[c].DirNode? && |view[c].entries| > 2 ==>
                      outcome == BadFType && Valid() && Nodes0() == view)
                && (c != 0 && (view[c].FileNode? || |view[c].entries| <= 2) ==>
                      Removed(view, old(ino), old(live), c, p, old(xcaddr), old(xcache)))
      ensures old(Valid()) && ok ==> Clean(h, disk, ino, own, InCaches())
      ensures old(Valid()) && !ok && old(AllInUse()) ==> AllInUse()
    {
      hide Valid, Owning, Resolve, Removed, View, NodeOnDisk, NodeKept, Clean, ListsInUse, EntriesOf, InodesOf,
           FlatFrom, Tree;
      ghost var s := Valid();
      ok := false;
      var ind, p := FindFile(path, 0);
      if outcome != Success { return; }
      if s { HitParts(path); }
      if ind == 0 {
        outcome := BadPermissions;
        return;
      }
      RemoveFound(ind, p, path, s);
      ok := outcome == Success;
    }

    /** fs2_rm once the path has been resolved, to an inode other than the root. */
    method RemoveFound(ind: nat, p: nat, ghost path: string, ghost s: bool)
      requires Owning() && ind < h.nextInode && p < h.nextInode && ind != 0 && NodeOnDisk(h, disk, p).ftype.Dir?
      requires s ==>
                && Valid() && path != "" && Resolve(Nodes0(), 0, path) == Hit(ind, p) && ind < |ino| == |Nodes0()|
                && (ino[ind].ftype.Dir? <==> Nodes0()[ind].DirNode?)
                && (ino[ind].ftype.Dir? ==> |Nodes0()[ind].entries| == ino[ind].eof)
      modifies `h, `disk, `outcome, `icindex, `icaddr, `icache, `dcaddr, `dcache, `xcaddr, `xcache, `ino, `live, `pos
      ensures Owning() && h == old(h)
      ensures s && old(Nodes0())[ind].DirNode? && |old(Nodes0())[ind].entries| > 2 ==>
                outcome == BadFType && Valid() && Nodes0() == old(Nodes0())
      ensures s && (old(Nodes0())[ind].FileNode? || |old(Nodes0())[ind].entries| <= 2) ==>
                Removed(old(Nodes0()), old(ino), old(live), ind, p, old(xcaddr), old(xcache))
      ensures s && outcome == Success ==> Clean(h, disk, ino, own, InCaches())
      ensures s && outcome != Success && old(AllInUse()) ==> AllInUse()
    {
      hide *;
      LoadInode(ind);
      var inode := icache[ind % 32];
      if inode.ftype == Dir && inode.eof > 2 {
        outcome := BadFType;
        return;
      }
      if s { NowLeaf(path); }
      RemoveLeaf(ind, p, s);
    }

    lemma HitParts(path: string)
      requires Valid() && Target(Nodes0(), path).Hit?
      ensures var t := Target(Nodes0(), path);
              && t.child in live && t.parent in live && t.child < |ino| == |Nodes0()| && t.parent < |ino|
              && Nodes0()[t.parent].DirNode? && (ino[t.child].ftype.Dir? <==> Nodes0()[t.child].DirNode?)
              && (ino[t.child].ftype.Dir? ==> |Nodes0()[t.child].entries| == ino[t.child].eof)
    {
      hide Owning, Consistent, Resolve, View;
      Whole();
      TargetHit(h, disk, ino, own, live, pos, path);
    }

    lemma NowLeaf(path: string)
      requires Valid() && path != "" && Resolve(Nodes0(), 0, path).Hit?
      requires var c := Resolve(Nodes0(), 0, path).child;
               c != 0 && (c < |ino| && ino[c].ftype.Dir? ==> ino[c].eof <= 2)
      ensures Leaf(Resolve(Nodes0(), 0, path).child, Resolve(Nodes0(), 0, path).parent)
    {
      hide Owning, Consistent, Resolve, View;
      Whole();
      CheckedLeaf(h, disk, ino, own, live, pos, path);
    }

    // ---------------------------------------------------- format and mount

    /** The structure that fs2_format_volume is given: arrays of their C sizes, and a
        general purpose cache that does not contradict the disk. */
    ghost predicate WellFormed()
      reads `h, `disk, `icache, `dcaddr, `dcache, `xcaddr, `xcache
    {
      && Shaped() && |h.regStart| == |h.regLen| == 800 && Short(h.regLen)
      && (dcaddr == 0 ==> NamesNone(dcache)) && (0 < xcaddr < |disk| ==> disk[xcaddr] == xcache)
    }

    /** fs2_format_volume: a new volume with only a root directory, on a disk that
        may hold anything.  Nor do the block caches matter, if only the general
        purpose one does not contradict the disk; whether the volume that comes
        out is a whole one hangs on the inode cache index alone.  If that is 0, no
        inode block is allocated, and the cached one goes to its old address. */
    method Format(nblocks: nat, defaultPerms: nat, defISz: nat, defFSz: nat, defDSz: nat)
      requires defISz < 256 && defFSz < 256 && defDSz < 256
      requires WellFormed() && nblocks <= |disk| < NO_BLOCK
      modifies this
      ensures xcaddr == old(xcaddr) && xcache == old(xcache)
      ensures BadFormat(nblocks, defISz, defFSz, defDSz) ==>
                outcome == BadFormatArgs && h == old(h) && disk == old(disk)
      ensures !BadFormat(nblocks, defISz, defFSz, defDSz) ==>
                h.defaultPerm == defaultPerms && h.iregLen == defISz && h.fregLen == defFSz && h.dregLen == defDSz
      ensures !BadFormat(nblocks, defISz, defFSz, defDSz) ==> outcome == Success && BlockAt(disk, 0) == HeaderBlock(h)
      ensures !BadFormat(nblocks, defISz, defFSz, defDSz) && old(icindex) != 0 ==>
                && Valid() && solid
                && |Nodes0()| == |ino| == 1 && NewView(Nodes0()[0], Dir, 0, 0, defDSz)
                && NodeBlocks(ino[0]) == Run(1 + defISz, defDSz) && Formatted(h, nblocks, defISz, defFSz, defDSz)
      ensures !BadFormat(nblocks, defISz, defFSz, defDSz) && old(icindex) == 0 ==>
                && ITab(h) == [] && h.nextInode == 1 && 1 < |disk| == |old(disk)| && icaddr == old(icaddr)
                && disk == Saved(old(disk)[1 := DirBlock(dcache)], icaddr, icache)[0 := HeaderBlock(h)]
    {
      hide Valid, Owning, Creating, Clean, NewView, Entered, View, Charged, NodeBlocks, Formatted, Reserved, DirBlocks,
           HasInodeSpace, ITab, Run, HeaderOk, EntriesOf, InodesOf, FlatFrom, Tree;
      if nblocks < 1 + defISz + defDSz || defDSz == 0 || defFSz == 0 || defISz == 0 {
        outcome := BadFormatArgs;
        return;
      }
      ghost var ready := icindex != 0;
      ResetHeader(nblocks, defaultPerms, defISz, defFSz, defDSz);
      ghost var h0 := h;
      ghost var linked := CreateFile("", 0, Dir, ready, ready);
      SameLengths(h0, h);
      if ready { FormattedRoot(h0, linked); }
    }

    /** The header of an empty volume, of which no block is in use but the first. */
    method ResetHeader(nblocks: nat, defaultPerms: nat, defISz: nat, defFSz: nat, defDSz: nat)
      requires 1 <= defISz < 256 && 1 <= defFSz < 256 && 1 <= defDSz < 256
      requires 1 + defISz + defDSz <= nblocks <= |disk| < NO_BLOCK && WellFormed()
      modifies `h, `ino, `own, `live, `pos, `solid
      ensures Creating(icindex != 0, icindex != 0) && HasInodeSpace(h) && ITab(h) == []
      ensures h.nextInode == 0 && h.nextBlock == 1 && h.nblocks == nblocks && h.defaultPerm == defaultPerms
      ensures h.iregLen == defISz && h.fregLen == defFSz && h.dregLen == defDSz
      ensures Reserved(h, Dir) == defISz + defDSz && DirBlocks(h, Dir) == defDSz
      ensures ino == [] && live == {0} && pos == [0] && solid
    {
      hide Clean, Kept, HeaderOk, Flat, ITab;
      h := h.(ident := "CWFS 2.1", nblocks := nblocks, nextBlock := 1, nextInode := 0, dregLen := defDSz,
              fregLen := defFSz, iregLen := defISz, defaultPerm := defaultPerms, separator := 800,
              regStart := Zeroes(800));
      EmptyHeader(h, |disk|);
      NothingStored();
    }

    ghost method NothingStored()
      requires HeaderOk(h, |disk|) && h.nextBlock == 1 && h.nextInode == 0 && ITab(h) == [] && WellFormed()
      modifies `ino, `own, `live, `pos, `solid
      ensures Creating(icindex != 0, icindex != 0)
      ensures ino == [] && live == {0} && pos == [0] && solid
    {
      hide Clean, Kept, HeaderOk, Flat, ITab;
      ino, own, live, pos, solid := [], [HeaderTag], {0}, [0], true;
      EmptyVolume(h, disk, InCaches());
      CleanKept(h, disk, [], [HeaderTag], InCaches(), Upkeep(0, 0, true));
    }

    /** The root directory alone makes a whole volume. */
    ghost method FormattedRoot(h0: HBlock, linked: bool)
      requires Clean(h, disk, ino, own, InCaches()) && Owning() && live == {0} && pos == [0]
      requires Entered([], ino, [], Nodes0(), 0, "", Dir, h.dregLen, h0.nextBlock + h0.iregLen, linked) && !linked
      requires Charged(h0, h, Reserved(h0, Dir)) && h0.nextInode == 0 && ITab(h0) == []
      ensures Valid() && |Nodes0()| == 1 && NewView(Nodes0()[0], Dir, 0, 0, h0.dregLen)
      ensures h0.nextBlock == 1 ==> Formatted(h, h0.nblocks, h0.iregLen, h0.fregLen, h0.dregLen)
      ensures BlockAt(disk, 0) == HeaderBlock(h)
      ensures |ino| == 1 && NodeBlocks(ino[0]) == Run(h0.nextBlock + h0.iregLen, h0.dregLen)
    {
      hide Valid, Owning, Clean, NewView, Tree, View, Sized;
      OwnParts();
      TreeRoot(ino, Nodes0(), h.dregLen);
      CleanValid();
    }

    /** fs2_load_volume: mount what is on the disk.  The ghost parameters name a
        volume the disk holds; the mounted volume is that one.  If it is the
        volume in memory, be it whole or not, its blocks keep their owners. */
    method LoadVolume(ghost h0: HBlock, ghost ino0: seq<INode>, ghost own0: seq<Tag>, ghost live0: set<nat>,
                      ghost pos0: seq<nat>)
      requires Shaped()
      modifies `h, `outcome, `icindex, `dcaddr, `xcaddr, `ino, `own, `live, `pos, `solid
      ensures Consistent(h0, disk, ino0, own0, live0, pos0) ==>
                && outcome == Success && Valid() && (solid <==> AllSolid(ino0))
                && h == h0 && Nodes0() == View(disk, ino0)
      ensures old(Owning()) && old(own) == own0 ==>
                && outcome == Success && Owning() && h == old(h) && (old(solid) ==> solid)
      ensures outcome == if |disk| == 0 then DiskRdErr
                         else if HeaderOf(disk[0]).ident == "CWFS 2.1" then Success else InvalidFs
    {
      hide Owning, Valid, Consistent, EntriesOf, NamesOk, TableShape, HeaderOf, View, Kept,
           AllSolid, NodeOnDisk, ITab, FlatFrom, HeaderOk;
      if Consistent(h0, disk, ino0, own0, live0, pos0) { DiskHeader(h0, disk, ino0, own0, live0, pos0); }
      ghost var kept := Owning() && own == own0;
      if kept { MountReady(); }
      var ok, b := RBlk(0);
      if !ok {
        outcome := DiskRdErr;
        return;
      }
      h := HeaderOf(b);
      if h.ident != "CWFS 2.1" {
        outcome := InvalidFs;
        return;
      }
      icindex, dcaddr, xcaddr := NO_BLOCK, NO_BLOCK, NO_BLOCK;
      outcome := Success;
      Mounted(h0, ino0, own0, live0, pos0, kept);
    }

    lemma MountReady()
      requires Owning()
      ensures 0 < |disk| && HeaderOf(disk[0]) == h && h.ident == "CWFS 2.1" && 1 <= h.nextInode
      ensures BlockAt(disk, 0) == HeaderBlock(h)
      ensures Kept(h, disk, own, InCaches().(icindex := NO_BLOCK, dcaddr := NO_BLOCK, xcaddr := NO_BLOCK),
                   Upkeep(h.nextInode, h.nextInode, solid))
    {
      hide KeptDisk, KeptCache, KeptDirs;
      KeptMount(h, disk, own, InCaches(), Upkeep(h.nextInode, h.nextInode, solid));
    }

    /** The ghost part of mounting a volume. */
    ghost method Mounted(h0: HBlock, ino0: seq<INode>, own0: seq<Tag>, live0: set<nat>, pos0: seq<nat>, kept: bool)
      requires HeaderOf(BlockAt(disk, 0)) == h && Shaped() && icindex == dcaddr == xcaddr == NO_BLOCK
      requires kept ==>
                && Kept(h, disk, own0, InCaches(), Upkeep(h.nextInode, h.nextInode, solid))
                && 1 <= h.nextInode && BlockAt(disk, 0) == HeaderBlock(h)
      modifies `ino, `own, `live, `pos, `solid
      ensures Consistent(h0, disk, ino0, own0, live0, pos0) ==>
                h == h0 && Valid() && (solid <==> AllSolid(ino0)) && Nodes0() == View(disk, ino0)
      ensures kept ==> Owning() && (old(solid) ==> solid)
    {
      hide Consistent, NamesOk, TableShape, Kept, Owning, Valid, ICacheOk, DCacheOk, XCacheOk,
           View, AllSolid, HeaderOf, ITab, FlatFrom, EntriesOf;
      ino, own, live, pos := ino0, own0, live0, pos0;
      if Consistent(h0, disk, ino0, own0, live0, pos0) {
        DiskHeader(h0, disk, ino0, own0, live0, pos0);
        var n := h.nextInode;
        if kept { KeptFlags(h, disk, ino, own, live, pos, InCaches(), Upkeep(n, n, solid)); }
        solid := AllSolid(ino0);
        MountKept(h, disk, ino, own, live, pos, InCaches(), Upkeep(n, n, solid));
        NowOwning();
        NowValid();
      } else if kept {
        NowOwning();
      }
    }
  }
}
