/** Runs of the file system that show where its calls do not do what they mean to. */
module Fs2Instances {
  import opened Fs2Layout
  import opened Fs2State
  import opened Fs2Path
  import opened Fs2Update
  import opened Fs2Dirs
  import opened Fs2Kept
  import opened Fs2Tree
  import opened Fs2Laws
  import opened Fs2Volume
  import opened Fs2Usage

  // --------------------------------------------------------------- a stale cache

  /** The name of the i-th file: different for each i, and none a prefix of another. */
  function Name(i: nat): (name: string)
    requires i < 256
    ensures PlainName(name) && |name| == 3 && name[0] == 'n'
  {
    ['n', (48 + i / 16) as char, (48 + i % 16) as char]
  }

  lemma NamesDiffer(i: nat, j: nat)
    requires i < 256 && j < 256
    ensures NameMatches(Pad(Name(i)), Name(j)) <==> i == j
  {
    assert Pad(Name(i))[1] == (48 + i / 16) as char && Pad(Name(i))[2] == (48 + i % 16) as char;
  }

  lemma DotDiffers(name: string, j: nat)
    requires j < 256 && name != "" && name[0] == '.'
    ensures !NameMatches(name, Name(j))
  {
  }

  /** The entries of the root: "." and "..", then the files 1, 2, ... n. */
  predicate Listed(es: seq<DirEntry>, n: nat)
    requires n < 256
  {
    && |es| == n + 2 && es[0].inodeIndex == es[1].inodeIndex == 0
    && "." <= es[0].name && ".." <= es[1].name
    && forall k :: 2 <= k < |es| ==> es[k] == DirEntry(k - 1, Pad(Name(k - 1)))
  }

  /** A volume with room for many more files, and its root's entries. */
  ghost predicate Stocked(vol: Volume, es: seq<DirEntry>)
    reads vol
  {
    && vol.Valid() && 0 < |vol.Nodes0()| == |vol.ino| == vol.h.nextInode < 256 && |ITab(vol.h)| == 8
    && vol.h.nextBlock <= vol.h.nblocks && vol.h.dregLen == 2
    && vol.Nodes0()[0] == DirNode(es, 2) && |es| <= 256 && |NodeBlocks(vol.ino[0])| == 2
    && forall b :: 0 <= b < 2 ==> NodeBlocks(vol.ino[0])[b] < NO_BLOCK
  }

  /** A name no entry begins with is not there yet. */
  lemma NoSuchName(view: seq<Node>, es: seq<DirEntry>, name: string)
    requires view != [] && view[0] == DirNode(es, 2) && PlainName(name) && |name| <= 28
    requires forall k :: 0 <= k < |es| ==> !NameMatches(es[k].name, name)
    ensures Target(view, name) == Miss(NoFile)
    ensures CreateParent(view, name) == Hit(0, 0) && NewName(name) == name && name[|name| - 1] != '/'
  {
    CompLenUnique(name, |name|);
    assert name[..|name|] == name;
    ResolveStep(view, 0, name);
    PlainIsName(name);
  }

  /** One more file or directory in the root. */
  method AddInode(vol: Volume, ftype: FType, name: string, ghost es: seq<DirEntry>)
    requires Stocked(vol, es) && vol.h.nextInode < 255 && |es| < 256 && PlainName(name) && |name| <= 28
    requires ftype.Dir? ==> vol.h.nextBlock + 2 <= vol.h.nblocks
    requires forall k :: 0 <= k < |es| ==> !NameMatches(es[k].name, name)
    modifies vol
    ensures Stocked(vol, es + [DirEntry(old(vol.h.nextInode), Pad(name))])
    ensures AddedTo(old(vol.h), old(vol.Nodes0()), old(vol.ino), vol.h, vol.Nodes0(), vol.ino, ftype)
    ensures vol.solid == old(vol.solid) && vol.xcaddr == old(vol.xcaddr) && vol.xcache == old(vol.xcache)
  {
    hide Kept, Consistent, ICacheOk, DCacheOk, XCacheOk, View, NodeBlocks, CreateParent, Resolve, Created, Linking,
         AddedTo, Pad, NameMatches, ITab, FlatFrom, Given, EntriesOf, InodesOf, Tree;
    NoSuchName(vol.Nodes0(), es, name);
    RootSize(vol);
    ghost var h0, view, ino := vol.h, vol.Nodes0(), vol.ino;
    ghost var par, linked;
    var ok;
    ok, par, linked := vol.Create(ftype, name);
    RootSize(vol);
    AddedBy(h0, view, ino, vol.h, vol.Nodes0(), vol.ino, name, ftype, es);
  }

  lemma AddedBy(h0: HBlock, view0: seq<Node>, ino0: seq<INode>, h: HBlock, view: seq<Node>, ino: seq<INode>,
                name: string, ftype: FType, es: seq<DirEntry>)
    requires 0 < h0.nextInode == |view0| == |ino0| < 255 && |ITab(h0)| == 8 && h0.dregLen == 2
    requires view0[0] == DirNode(es, 2) && |es| < 256 && ino0[0].eof == |es| && |NodeBlocks(ino0[0])| == 2
    requires Created(view0, view, 0, name, ftype, h.dregLen, true) && Linking(h0, h, ino0, ino, 0, ftype, true)
    requires h0.nextBlock + DirBlocks(h0, ftype) <= h0.nblocks
    requires |view| == |ino| && (view[0].DirNode? ==> |NodeBlocks(ino[0])| == view[0].blocks)
    ensures AddedTo(h0, view0, ino0, h, view, ino, ftype) && |ITab(h)| == 8 && |NodeBlocks(ino[0])| == 2
    ensures view[0] == DirNode(es + [DirEntry(h0.nextInode, Pad(name))], 2)
    ensures h.nextInode == h0.nextInode + 1 && h.nextBlock <= h.nblocks && h.dregLen == 2
  {
    hide NodeBlocks, ITab, Pad, NewView, Given;
    forall m | 0 <= m < |view0| ensures view[m] == view[..|view0|][m] {}
  }

  /** The volume after that: the new inode is the last one, and only the root has
      changed besides. */
  ghost predicate AddedTo(h0: HBlock, view0: seq<Node>, ino0: seq<INode>, h: HBlock, view: seq<Node>, ino: seq<INode>,
                          ftype: FType)
  {
    var n := h0.nextInode;
    && 0 < n == |view0| == |ino0| && |view| == |ino| == n + 1
    && h == h0.(nextInode := n + 1, nextBlock := h0.nextBlock + DirBlocks(h0, ftype))
    && NodeBlocks(ino[0]) == NodeBlocks(ino0[0])
    && (forall m :: 1 <= m < n ==> view[m] == view0[m] && ino[m] == ino0[m])
    && NewView(view[n], ftype, n, 0, h0.dregLen) && Given(ino[n], ftype, h0.nextBlock, h0.dregLen)
  }

  /** What the view of the root says about its inode. */
  lemma RootSize(vol: Volume)
    requires vol.Valid()
    ensures 0 < |vol.ino| == |vol.Nodes0()| == vol.h.nextInode && vol.Nodes0()[0].DirNode? && 0 in vol.live
    ensures vol.ino[0].eof == |vol.Nodes0()[0].entries| && |NodeBlocks(vol.ino[0])| == vol.Nodes0()[0].blocks
    ensures forall b :: 0 <= b < |NodeBlocks(vol.ino[0])| ==> NodeBlocks(vol.ino[0])[b] < NO_BLOCK
  {
    hide Consistent, Kept;
    vol.Whole();
    RootLive(vol.h, vol.disk, vol.ino, vol.own, vol.live, vol.pos);
    RootIsNode(vol.h, vol.disk, vol.ino, vol.own, vol.live, vol.pos);
    LiveNode(vol.h, vol.disk, vol.ino, vol.own, vol.live, vol.pos, 0);
  }

  /** Entry k of the root is what the name of its file finds, and that file's only link. */
  ghost predicate OnlyLink(es: seq<DirEntry>, k: nat, name: string) {
    && 2 <= k < |es| && es[k].inodeIndex != 0 && PlainName(name) && |name| <= 28
    && NameMatches(es[k].name, name)
    && (forall j :: 0 <= j < k ==> !NameMatches(es[j].name, name))
    && (forall j :: 0 <= j < |es| && es[j].inodeIndex == es[k].inodeIndex ==> j == k)
  }

  lemma LinkFound(view: seq<Node>, es: seq<DirEntry>, b: nat, k: nat, name: string)
    requires view != [] && view[0] == DirNode(es, b) && k < 128 * (b - 1) && OnlyLink(es, k, name)
    ensures Target(view, name) == Hit(es[k].inodeIndex, 0) && LinkOf(es, es[k].inodeIndex, 0) == k
  {
    FirstMatchIs(es, name, 0, k);
    CompLenUnique(name, |name|);
    assert name[..|name|] == name;
    ResolveStep(view, 0, name);
  }

  /** One file less in the root; the volume stays as it should be exactly if the
      cache is fresh. */
  method RemoveFile(vol: Volume, name: string, ghost es: seq<DirEntry>, ghost b: nat, ghost k: nat)
    requires vol.Valid() && vol.Nodes0() != [] && vol.Nodes0()[0] == DirNode(es, b) && |vol.Nodes0()| == |vol.ino|
    requires OnlyLink(es, k, name) && InReach(k) && k < 128 * (b - 1)
    requires es[k].inodeIndex < |vol.Nodes0()| && vol.Nodes0()[es[k].inodeIndex].FileNode?
    modifies vol
    ensures var view, blocks := old(vol.Nodes0()), old(NodeBlocks(vol.ino[0]));
            var x, c := old(vol.xcaddr), old(vol.xcache);
            var es' := Dropped(es, k, Replacement(es, blocks, k, x, c));
            && vol.outcome == Success && |vol.Nodes0()| == |view| == |vol.ino| && vol.Nodes0()[0] == DirNode(es', b)
            && vol.Owning() && vol.h == old(vol.h) && NodeBlocks(vol.ino[0]) == blocks && Sized(vol.ino[0])
            && Clean(vol.h, vol.disk, vol.ino, vol.own, vol.InCaches())
            && (forall m :: 1 <= m < |view| && m != es[k].inodeIndex ==> vol.Nodes0()[m] == view[m])
            && (forall m :: 1 <= m < |view| ==> (vol.Nodes0()[m].DirNode? <==> view[m].DirNode?))
            && LastLoaded(es, blocks, k, x, c, vol.xcaddr, vol.xcache)
            && (if FreshLast(es, blocks, k, x, c) then vol.Valid()
                else LostLast(view, vol.Nodes0(), vol.ino, old(vol.live), es[k].inodeIndex, 0))
  {
    hide Kept, Consistent, ICacheOk, DCacheOk, XCacheOk, View, NodeBlocks, Resolve, Replacement, FreshLast, LastLoaded,
         LinkOf, Dropped, InReach, LostLast, Clean, ListsInUse, Sized;
    LinkFound(vol.Nodes0(), es, b, k, name);
    RootSize(vol);
    ghost var nd := vol.ino[0];
    var ok := vol.Rm(name);
    SameBlocks(nd, vol.ino[0]);
  }

  /** The same for a root of two blocks. */
  method RemoveStocked(vol: Volume, name: string, ghost es: seq<DirEntry>, ghost k: nat)
    requires Stocked(vol, es) && OnlyLink(es, k, name) && InReach(k) && k < 128
    requires es[k].inodeIndex < |vol.Nodes0()| && vol.Nodes0()[es[k].inodeIndex].FileNode?
    modifies vol
    ensures var view, blocks := old(vol.Nodes0()), old(NodeBlocks(vol.ino[0]));
            var x, c := old(vol.xcaddr), old(vol.xcache);
            var es' := Dropped(es, k, Replacement(es, blocks, k, x, c));
            && vol.outcome == Success && |vol.Nodes0()| == |view| && vol.Nodes0()[0] == DirNode(es', 2)
            && vol.Owning() && vol.h == old(vol.h) && vol.ino != [] && Sized(vol.ino[0])
            && Clean(vol.h, vol.disk, vol.ino, vol.own, vol.InCaches())
            && (forall m :: 1 <= m < |view| && m != es[k].inodeIndex ==> vol.Nodes0()[m] == view[m])
            && (forall m :: 1 <= m < |view| ==> (vol.Nodes0()[m].DirNode? <==> view[m].DirNode?))
            && LastLoaded(es, blocks, k, x, c, vol.xcaddr, vol.xcache)
            && (if FreshLast(es, blocks, k, x, c)
                then Stocked(vol, es') && NodeBlocks(vol.ino[0]) == blocks && vol.h.nextInode == old(vol.h.nextInode)
                else LostLast(view, vol.Nodes0(), vol.ino, old(vol.live), es[k].inodeIndex, 0))
  {
    hide Kept, Consistent, ICacheOk, DCacheOk, XCacheOk, View, NodeBlocks, Replacement, FreshLast, LastLoaded,
         InReach, LostLast, Clean, OnlyLink, Sized;
    RootSize(vol);
    RemoveFile(vol, name, es, 2, k);
    if vol.Valid() { RootSize(vol); }
  }

  lemma ListedNext(es: seq<DirEntry>, i: nat)
    requires 1 <= i < 256 && Listed(es, i - 1)
    ensures |es| == i + 1 && (forall k :: 0 <= k < |es| ==> !NameMatches(es[k].name, Name(i)))
    ensures Listed(es + [DirEntry(i, Pad(Name(i)))], i)
  {
    forall k | 0 <= k < |es| ensures !NameMatches(es[k].name, Name(i)) {
      if k >= 2 { NamesDiffer(k - 1, i); }
    }
  }

  /** A new volume with nothing but its root. */
  method NewRoot(vol: Volume) returns (ghost es: seq<DirEntry>)
    requires Formattable(vol, 100)
    modifies vol
    ensures Stocked(vol, es) && Listed(es, 0) && |vol.Nodes0()| == 1 && vol.solid
    ensures Formatted(vol.h, 100, 8, 1, 2) && RegionSpace(vol.h) && NodeBlocks(vol.ino[0]) == Run(9, 2)
    ensures vol.xcaddr == old(vol.xcaddr) && vol.xcache == old(vol.xcache)
  {
    hide Kept, Consistent, ICacheOk, DCacheOk, XCacheOk, View, NodeBlocks;
    vol.Format(100, 7, 8, 1, 2);
    RootSize(vol);
    FreeHeaderSlot(vol);
    es := vol.Nodes0()[0].entries;
    assert "." + "\0" <= es[0].name && ".." + "\0" <= es[1].name;
  }

  /** A table of less than 800 inode blocks has not used up the header's slots. */
  lemma FreeHeaderSlot(vol: Volume)
    requires vol.Valid() && |ITab(vol.h)| < 800
    ensures |vol.h.regStart| == 800 && vol.h.regStart[799] == 0
  {
    hide Tree, Kept, ICacheOk, DCacheOk, XCacheOk;
    vol.Whole();
    if vol.h.regStart[799] != 0 { FullTable(vol.h.regStart, vol.h.regLen, 0); }
  }

  lemma {:induction false} FullTable(start: seq<nat>, len: seq<nat>, i: nat)
    requires |start| == |len| && i <= |start| && Solid(start, len) && forall j :: 0 <= j < |start| ==> start[j] != 0
    ensures |FlatFrom(start, len, i)| >= |start| - i
    decreases |start| - i
  {
    if i < |start| { FullTable(start, len, i + 1); }
  }

  /** n files in the root of a new volume, nothing in them yet. */
  method FillRoot(vol: Volume, n: nat) returns (ghost es: seq<DirEntry>)
    requires Formattable(vol, 100) && n < 255
    modifies vol
    ensures Stocked(vol, es) && Listed(es, n) && EmptyFiles(vol, n + 1) && NodeBlocks(vol.ino[0]) == Run(9, 2)
    ensures vol.xcaddr == old(vol.xcaddr) && vol.xcache == old(vol.xcache)
  {
    hide View, NodeBlocks, Listed, Stocked, Name, AddedTo;
    es := NewRoot(vol);
    RootFilling(vol, es);
    var i := 1;
    while i <= n
      invariant 1 <= i <= n + 1 && Stocked(vol, es) && Listed(es, i - 1) && EmptyFiles(vol, i)
      invariant NodeBlocks(vol.ino[0]) == Run(9, 2) && vol.xcaddr == old(vol.xcaddr) && vol.xcache == old(vol.xcache)
    {
      ListedNext(es, i);
      ghost var h0, view, ino := vol.h, vol.Nodes0(), vol.ino;
      AddInode(vol, File, Name(i), es);
      FillingNext(vol, h0, view, ino, i);
      es := es + [DirEntry(i, Pad(Name(i)))];
      i := i + 1;
    }
  }

  /** Inodes 1 to n - 1 are empty files without blocks. */
  ghost predicate EmptyFiles(vol: Volume, n: nat)
    reads vol
  {
    && vol.h.nextInode == |vol.Nodes0()| == |vol.ino| == n && 0 < n
    && RegionSpace(vol.h) && vol.h.nextBlock == 11 && vol.h.nblocks == 100 && vol.h.iregLen == 8
    && forall m :: 1 <= m < n ==> vol.Nodes0()[m] == FileNode([]) && Given(vol.ino[m], File, 0, 0)
  }

  lemma RootFilling(vol: Volume, es: seq<DirEntry>)
    requires Stocked(vol, es) && |vol.Nodes0()| == 1 && Formatted(vol.h, 100, 8, 1, 2) && RegionSpace(vol.h)
    ensures EmptyFiles(vol, 1)
  {
    hide Kept, Consistent, ICacheOk, DCacheOk, XCacheOk, View, NodeBlocks;
  }

  lemma FillingNext(vol: Volume, h0: HBlock, view0: seq<Node>, ino0: seq<INode>, n: nat)
    requires 0 < n == |view0| == |ino0| && h0.nextInode == n && RegionSpace(h0)
    requires h0.nextBlock == 11 && h0.nblocks == 100 && h0.iregLen == 8
    requires forall m :: 1 <= m < n ==> view0[m] == FileNode([]) && Given(ino0[m], File, 0, 0)
    requires AddedTo(h0, view0, ino0, vol.h, vol.Nodes0(), vol.ino, File)
    ensures EmptyFiles(vol, n + 1) && NodeBlocks(vol.ino[0]) == NodeBlocks(ino0[0])
  {
    hide View, NodeBlocks, FreeSlot;
  }

  /** The first removal: its entry, and what the cache says of the last one. */
  lemma FirstRemoval(es: seq<DirEntry>, blocks: seq<nat>, xcache: Block)
    requires Listed(es, 128) && |blocks| == 2 && forall b :: 0 <= b < 2 ==> blocks[b] < NO_BLOCK
    ensures |es| == 130 && OnlyLink(es, 2, Name(1)) && es[2].inodeIndex == 1 && es[129].inodeIndex == 128
    ensures FreshLast(es, blocks, 2, NO_BLOCK, xcache) && Replacement(es, blocks, 2, NO_BLOCK, xcache) == es[129]
  {
    NamesDiffer(1, 1);
  }

  /** What is there before the second removal. */
  lemma SecondRemoval(es: seq<DirEntry>, e: DirEntry)
    requires Listed(es, 128) && |e.name| == 28 && e.inodeIndex == 129 && e.name[0] == 'q'
    ensures |es| == 130
    ensures var es1 := Dropped(es, 2, es[129]);
            var es2 := es1 + [e];
            && |es1| == 129 && (forall k :: 0 <= k < 129 ==> !NameMatches(es1[k].name, "qq"))
            && |es2| == 130 && OnlyLink(es2, 3, Name(2)) && es2[3].inodeIndex == 2 && es2[2].inodeIndex == 128
            && forall j :: 0 <= j < 129 ==> es2[j].inodeIndex != 129
  {
    hide Name, Dropped, NameMatches, Pad;
    AfterFirst(es);
    NamesDiffer(2, 2);
    NamesDiffer(128, 2);
    DotDiffers(es[0].name, 2);
    DotDiffers(es[1].name, 2);
    NoneNamed(es, Dropped(es, 2, es[129]));
  }

  lemma AfterFirst(es: seq<DirEntry>)
    requires |es| == 130
    ensures var es1 := Dropped(es, 2, es[129]);
            |es1| == 129 && forall k :: 0 <= k < 129 ==> es1[k] == if k == 2 then es[129] else es[k]
  {
  }

  lemma NoneNamed(es: seq<DirEntry>, es1: seq<DirEntry>)
    requires Listed(es, 128) && |es1| == 129 && forall k :: 0 <= k < 129 ==> es1[k] == if k == 2 then es[129] else es[k]
    ensures forall k :: 0 <= k < 129 ==> !NameMatches(es1[k].name, "qq")
  {
    hide Name;
    assert forall k :: 2 <= k < 130 ==> es[k].name == Pad(Name(k - 1));
    forall k | 0 <= k < 129 ensures !NameMatches(es1[k].name, "qq") {
      assert es1[k].name[0] == if k < 2 then '.' else 'n';
    }
  }

  /** The cached copy of the root's second block is older than the disk's. */
  lemma CacheIsStale(es: seq<DirEntry>, es2: seq<DirEntry>, blocks: seq<nat>, x0: nat, c0: Block, x1: nat, c1: Block)
    requires |es| == |es2| == 130 && |blocks| == 2 && x0 != At(blocks, 1)
    requires LastLoaded(es, blocks, 2, x0, c0, x1, c1) && es[129].inodeIndex != es2[129].inodeIndex
    ensures !FreshLast(es2, blocks, 3, x1, c1) && Replacement(es2, blocks, 3, x1, c1) == es[129]
  {
    assert EntriesOf(c1)[129 % 128] == es[129];
  }

  /** The root of a whole volume whose third entry is a file's only link, while the
      general purpose cache shows an entry for inode 128 where the directory has
      its last one, for inode 129. */
  ghost predicate StaleLast(vol: Volume, es: seq<DirEntry>)
    reads vol
  {
    && Stocked(vol, es) && |vol.Nodes0()| == |es| == 130 && OnlyLink(es, 3, Name(2))
    && es[2].inodeIndex == 128 && es[3].inodeIndex == 2 && es[129].inodeIndex == 129
    && (forall j :: 0 <= j < 129 ==> es[j].inodeIndex != 129)
    && (forall m :: 1 <= m < 130 ==> vol.Nodes0()[m].FileNode?) && vol.Nodes0()[129] == FileNode([])
    && !FreshLast(es, NodeBlocks(vol.ino[0]), 3, vol.xcaddr, vol.xcache)
    && Replacement(es, NodeBlocks(vol.ino[0]), 3, vol.xcaddr, vol.xcache).inodeIndex == 128
  }

  /** 128 files in the root of a new volume, and the first of them removed. */
  method FillAndRemove(vol: Volume) returns (ghost es0: seq<DirEntry>, ghost c0: Block)
    requires Formattable(vol, 100) && vol.xcaddr == NO_BLOCK
    modifies vol
    ensures Listed(es0, 128) && |es0| == 130 && es0[129].inodeIndex == 128
    ensures Stocked(vol, Dropped(es0, 2, es0[129])) && vol.h.nextInode == |vol.Nodes0()| == 129
    ensures forall m :: 1 <= m < 129 ==> vol.Nodes0()[m].FileNode?
    ensures LastLoaded(es0, NodeBlocks(vol.ino[0]), 2, NO_BLOCK, c0, vol.xcaddr, vol.xcache)
  {
    hide View, NodeBlocks, Listed, OnlyLink, Name, Replacement, LastLoaded, FreshLast, LostLast, Dropped, Stocked,
         Kept, Consistent, ICacheOk, DCacheOk, XCacheOk, Clean;
    es0 := FillRoot(vol, 128);
    c0 := vol.xcache;
    StockedBlocks(vol, es0);
    FirstRemoval(es0, NodeBlocks(vol.ino[0]), c0);
    RemoveStocked(vol, Name(1), es0, 2);
  }

  /** The root before and after the first removal and the creation. */
  method FirstSteps(vol: Volume) returns (ghost es: seq<DirEntry>, ghost es0: seq<DirEntry>, ghost c0: Block)
    requires Formattable(vol, 100) && vol.xcaddr == NO_BLOCK
    modifies vol
    ensures Listed(es0, 128) && |es0| == 130 && es0[129].inodeIndex == 128
    ensures es == Dropped(es0, 2, es0[129]) + [DirEntry(129, Pad("qq"))]
    ensures Stocked(vol, es) && |vol.Nodes0()| == 130 && forall m :: 1 <= m < 130 ==> vol.Nodes0()[m].FileNode?
    ensures vol.Nodes0()[129] == FileNode([])
    ensures LastLoaded(es0, NodeBlocks(vol.ino[0]), 2, NO_BLOCK, c0, vol.xcaddr, vol.xcache)
  {
    hide View, NodeBlocks, Listed, OnlyLink, Name, LastLoaded, Dropped, Stocked, PlainName, NameMatches, Kept,
         Consistent, ICacheOk, DCacheOk, XCacheOk, Clean;
    es0, c0 := FillAndRemove(vol);
    ghost var es1, view1 := Dropped(es0, 2, es0[129]), vol.Nodes0();
    SecondRemoval(es0, DirEntry(129, Pad("qq")));
    ShortName("qq");
    AddInode(vol, File, "qq", es1);
    es := es1 + [DirEntry(129, Pad("qq"))];
  }

  lemma ShortName(name: string)
    requires |name| == 2 && name[0] != '/' && name[1] != '/'
    ensures PlainName(name)
  {
  }

  lemma StockedBlocks(vol: Volume, es: seq<DirEntry>)
    requires Stocked(vol, es)
    ensures |NodeBlocks(vol.ino[0])| == 2 && forall b :: 0 <= b < 2 ==> NodeBlocks(vol.ino[0])[b] < NO_BLOCK
    ensures vol.Valid() && vol.h.nextInode == |vol.Nodes0()| == |vol.ino| < 256 && vol.Nodes0()[0] == DirNode(es, 2)
    ensures |ITab(vol.h)| == 8 && vol.h.dregLen == 2 && vol.h.nextBlock <= vol.h.nblocks && |es| <= 256
  {
    hide Kept, Consistent, NodeBlocks, View;
  }

  /** How the cache gets stale: 128 files fill the root's first block and run into
      its second; removing the first of them brings the second block into the
      general purpose cache; the file created next takes the last entry of that
      block, on the disk alone. */
  method MakeStale(vol: Volume) returns (ghost es: seq<DirEntry>)
    requires Formattable(vol, 100) && vol.xcaddr == NO_BLOCK
    modifies vol
    ensures vol.Valid() && StaleLast(vol, es)
  {
    hide View, NodeBlocks, Listed, OnlyLink, Name, Replacement, LastLoaded, FreshLast, Dropped, Stocked, Kept,
         Consistent, ICacheOk, DCacheOk, XCacheOk, Clean;
    ghost var es0, c0;
    es, es0, c0 := FirstSteps(vol);
    StockedBlocks(vol, es);
    SecondRemoval(es0, DirEntry(129, Pad("qq")));
    CacheIsStale(es0, es, NodeBlocks(vol.ino[0]), NO_BLOCK, c0, vol.xcaddr, vol.xcache);
  }

  /** A removal that loses a file: the entry moved into the gap is the one the
      cache shows.  Two entries then name one file, and the last file created,
      though both calls have reported success, has none, and no path leads to it. */
  method StaleRemoval(vol: Volume)
    requires Formattable(vol, 100) && vol.xcaddr == NO_BLOCK
    modifies vol
    ensures vol.outcome == Success && |vol.Nodes0()| == 130 && vol.Nodes0()[129] == FileNode([])
    ensures vol.Nodes0()[0].DirNode? && |vol.Nodes0()[0].entries| == 129
    ensures vol.Nodes0()[0].entries[2].inodeIndex == vol.Nodes0()[0].entries[3].inodeIndex == 128
    ensures forall path :: Target(vol.Nodes0(), path).Hit? ==> Target(vol.Nodes0(), path).child != 129
  {
    hide View, NodeBlocks, OnlyLink, Name, Replacement, LastLoaded, FreshLast, LostLast, Stocked, Dropped, Resolve,
         Kept, Consistent, ICacheOk, DCacheOk, XCacheOk, Clean;
    ghost var es := MakeStale(vol);
    StockedBlocks(vol, es);
    ghost var e := Replacement(es, NodeBlocks(vol.ino[0]), 3, vol.xcaddr, vol.xcache);
    RemoveStocked(vol, Name(2), es, 3);
    AfterStale(es, e);
    NotInRoot(vol.Nodes0(), 129);
  }

  /** An inode that the root does not list, in a volume without other directories. */
  lemma NotInRoot(view: seq<Node>, y: nat)
    requires y != 0 && view != [] && view[0].DirNode? && forall m :: 1 <= m < |view| ==> view[m].FileNode?
    requires forall j :: 0 <= j < |view[0].entries| ==> view[0].entries[j].inodeIndex != y
    ensures forall path :: Target(view, path).Hit? ==> Target(view, path).child != y
  {
    hide Resolve;
    forall path | Target(view, path).Hit? ensures Target(view, path).child != y {
      if path != "" { NoEntryNoPath(view, y, 0, path); }
    }
  }

  lemma AfterStale(es: seq<DirEntry>, e: DirEntry)
    requires |es| == 130 && es[2].inodeIndex == 128 == e.inodeIndex
    requires forall j :: 0 <= j < 129 ==> es[j].inodeIndex != 129
    ensures var es' := Dropped(es, 3, e);
            && |es'| == 129 && es'[2].inodeIndex == es'[3].inodeIndex == 128
            && forall j :: 0 <= j < 129 ==> es'[j].inodeIndex != 129
  {
  }

  /** No path leads to an inode that no entry names. */
  lemma {:induction false} NoEntryNoPath(view: seq<Node>, y: nat, d: nat, s: string)
    requires forall m, j :: 0 <= m < |view| && view[m].DirNode? && 0 <= j < |view[m].entries| ==>
               view[m].entries[j].inodeIndex != y
    ensures Resolve(view, d, s).Hit? ==> Resolve(view, d, s).child != y
    decreases |s|
  {
    hide CompLen, Rest;
    var i := CompLen(s);
    RestShrinks(s);
    if d < |view| {
      ResolveStep(view, d, s);
      if i < |s| && i <= 28 && Lookup(view[d], s[..i]).Found? {
        NoEntryNoPath(view, y, Lookup(view[d], s[..i]).child, Rest(s));
      }
    }
  }

  // ---------------------------------------------------------- out of reach

  /** A file of the root with an entry that fs2_unlink does not look at. */
  lemma LateLink(es: seq<DirEntry>)
    requires Listed(es, 128)
    ensures |es| == 130 && OnlyLink(es, 32, Name(31)) && es[32].inodeIndex == 31 && !InReach(32)
  {
    hide Name, Pad;
    NamesDiffer(31, 31);
    DotDiffers(es[0].name, 31);
    DotDiffers(es[1].name, 31);
    forall j | 2 <= j < 32 ensures !NameMatches(es[j].name, Name(31)) {
      NamesDiffer(j - 1, 31);
    }
  }

  lemma SmallWrite(h: HBlock, nd: INode, n: nat)
    requires Given(nd, File, 0, 0) && 1 <= n <= 4096 && h.nextBlock < h.nblocks
    ensures Fits(n, 0, |NodeBlocks(nd)|) && Room(h, nd, n, 0)
  {
  }

  /** The 31st file of a directory cannot be removed: the call fails, the file is
      still found, and its inode has no blocks any more. */
  method RemovalOutOfReach(vol: Volume, data: seq<Byte>) returns (ghost before: seq<Node>)
    requires Formattable(vol, 100) && 1 <= |data| <= 4096
    modifies vol
    ensures Target(before, Name(31)) == Hit(31, 0) && 31 < |before| && before[31] == FileNode(data)
    ensures vol.outcome == NoFile && Target(vol.Nodes0(), Name(31)) == Hit(31, 0)
    ensures 31 < |vol.ino| && NodeBlocks(vol.ino[31]) == []
  {
    hide View, NodeBlocks, Listed, OnlyLink, Name, Stocked, Given, Fits, Room, Kept, Consistent, ICacheOk, DCacheOk,
         XCacheOk, Resolve, LinkOf, FreshLast, GapFilled, LostLast, Clean, ListsInUse, Shown, SolidNode, FirstPart,
         RegionSize, Reach, Landed, FlatFrom, EntriesOf, InodesOf, Sized, NodeView, Tree;
    ghost var es := FillRoot(vol, 128);
    StockedBlocks(vol, es);
    LateLink(es);
    LinkFound(vol.Nodes0(), es, 2, 32, Name(31));
    SmallWrite(vol.h, vol.ino[31], |data|);
    var written, n, out := WriteThenRead(vol, Name(31), data, 0, 0, |data|);
    before := vol.Nodes0();
    LinkFound(before, es, 2, 32, Name(31));
    var ok := vol.Rm(Name(31));
    LinkFound(vol.Nodes0(), es, 2, 32, Name(31));
  }

  // ------------------------------------------------------ by its own entry

  lemma FirstChars(es: seq<DirEntry>, name: string)
    requires name != "" && forall k :: 0 <= k < |es| ==> es[k].name != "" && es[k].name[0] != name[0]
    ensures forall k :: 0 <= k < |es| ==> !NameMatches(es[k].name, name)
  {
  }

  /** The third entry of the root is the directory "d". */
  ghost predicate HasD(es: seq<DirEntry>) {
    && 3 <= |es| <= 256 && es[2] == DirEntry(1, Pad("d"))
    && "." <= es[0].name && "." <= es[1].name
  }

  lemma DFound(view: seq<Node>, es: seq<DirEntry>)
    requires view != [] && view[0] == DirNode(es, 2) && HasD(es)
    ensures Target(view, "d") == Hit(1, 0) && Lookup(view[0], "d") == Found(1)
  {
    assert es[0].name[0] == "."[0] == es[1].name[0] && Pad("d")[0] == "d"[0];
    assert "d"[0] == 'd';
    assert NameMatches(es[2].name, "d") && !NameMatches(es[0].name, "d") && !NameMatches(es[1].name, "d");
    FirstMatchIs(es, "d", 0, 2);
    CompLenUnique("d", 1);
    assert "d"[..1] == "d";
    ResolveStep(view, 0, "d");
  }

  /** Where "d/." leads: to the directory "d", and from it. */
  lemma DotFound(view: seq<Node>, es: seq<DirEntry>)
    requires 2 <= |view| && view[0] == DirNode(es, 2) && HasD(es) && NewView(view[1], Dir, 1, 0, 2)
    ensures Target(view, "d/.") == Hit(1, 1) && view[1].DirNode? && |view[1].entries| == 2
  {
    hide NewView, Lookup, Resolve;
    DFound(view, es);
    DotIn(view[1]);
    CompLenUnique("d/.", 1);
    assert "d/."[..1] == "d";
    ResolveStep(view, 0, "d/.");
    SlashesUnique("/.", 1);
    assert "d/."[1..] == "/.";
    assert Rest("d/.") == "d/."[2..] == ".";
    CompLenUnique(".", 1);
    assert "."[..1] == ".";
    ResolveStep(view, 1, ".");
  }

  lemma DotIn(n: Node)
    requires NewView(n, Dir, 1, 0, 2)
    ensures n.DirNode? && |n.entries| == 2 && Lookup(n, ".") == Found(1)
  {
    FirstMatchIs(n.entries, ".", 0, 0);
  }

  /** A root that has the empty directory "d" for its first entry. */
  ghost predicate WithD(vol: Volume, es: seq<DirEntry>, n: nat)
    reads vol
  {
    && Stocked(vol, es) && |vol.Nodes0()| == vol.h.nextInode == n && 2 <= n && HasD(es) && |es| < 100
    && NewView(vol.Nodes0()[1], Dir, 1, 0, 2)
    && forall k :: 0 <= k < |es| ==> es[k].name != "" && es[k].name[0] != 'e'
  }

  lemma NowWithD(vol: Volume, h0: HBlock, view0: seq<Node>, ino0: seq<INode>, es: seq<DirEntry>)
    requires Stocked(vol, es + [DirEntry(1, Pad("d"))]) && Listed(es, 0) && h0.nextInode == 1 && h0.dregLen == 2
    requires AddedTo(h0, view0, ino0, vol.h, vol.Nodes0(), vol.ino, Dir)
    ensures WithD(vol, es + [DirEntry(1, Pad("d"))], 2)
  {
    hide Kept, Consistent, ICacheOk, DCacheOk, XCacheOk, View, NodeBlocks, NewView, Given;
  }

  lemma OnlyDots(es: seq<DirEntry>)
    requires Listed(es, 0)
    ensures |es| == 2 && forall k :: 0 <= k < |es| ==> !NameMatches(es[k].name, "d")
  {
    FirstChars(es, "d");
  }

  method NewD(vol: Volume) returns (ghost es: seq<DirEntry>)
    requires Formattable(vol, 100)
    modifies vol
    ensures WithD(vol, es, 2)
  {
    hide View, NodeBlocks, Stocked, WithD, Pad, NameMatches, AddedTo, Listed, RegionSpace, EntriesOf, InodesOf,
         FlatFrom, Tree;
    es := NewRoot(vol);
    StockedBlocks(vol, es);
    OnlyDots(es);
    ghost var h0, view, ino := vol.h, vol.Nodes0(), vol.ino;
    AddInode(vol, Dir, "d", es);
    NowWithD(vol, h0, view, ino, es);
    es := es + [DirEntry(1, Pad("d"))];
  }

  lemma DHere(vol: Volume, es: seq<DirEntry>, n: nat)
    requires WithD(vol, es, n)
    ensures vol.Valid() && |vol.Nodes0()| == n && vol.Nodes0()[0] == DirNode(es, 2)
    ensures HasD(es) && NewView(vol.Nodes0()[1], Dir, 1, 0, 2)
    ensures Stocked(vol, es) && vol.h.nextInode == n && |es| < 100
    ensures forall k :: 0 <= k < |es| ==> !NameMatches(es[k].name, "e")
  {
    hide Kept, Consistent, ICacheOk, DCacheOk, XCacheOk, View, NodeBlocks, NewView;
    FirstChars(es, "e");
  }

  /** A new volume with the empty directory "d", and perhaps a file created after it. */
  method DirAndFile(vol: Volume, last: bool) returns (ghost es: seq<DirEntry>)
    requires Formattable(vol, 100)
    modifies vol
    ensures vol.Valid() && |vol.Nodes0()| == (if last then 2 else 3) && vol.Nodes0()[0] == DirNode(es, 2) && HasD(es)
    ensures NewView(vol.Nodes0()[1], Dir, 1, 0, 2)
  {
    hide View, NodeBlocks, Stocked, WithD, Pad, NameMatches, NewView, Given, Kept, Consistent, ICacheOk, DCacheOk,
         XCacheOk, Clean;
    es := NewD(vol);
    DHere(vol, es, 2);
    if !last {
      AddInode(vol, File, "e", es);
      es := es + [DirEntry(2, Pad("e"))];
      StockedBlocks(vol, es);
    }
  }

  /** An empty directory removed as "d/.": if an inode has been created after it,
      the call fails and the directory is without its blocks; if it is the last
      inode, the call succeeds.  The root lists it either way. */
  method RemovalOfDot(vol: Volume, last: bool)
    requires Formattable(vol, 100)
    modifies vol
    ensures Target(vol.Nodes0(), "d") == Hit(1, 0) && 1 < |vol.ino| && 1 < |vol.Nodes0()|
    ensures if last then vol.outcome == Success && vol.Nodes0()[1].DirNode? && |vol.Nodes0()[1].entries| == 1
            else vol.outcome == NoFile && NodeBlocks(vol.ino[1]) == []
  {
    hide View, NodeBlocks, Kept, Consistent, ICacheOk, DCacheOk, XCacheOk, Resolve, Clean, NewView, Removal, HasD;
    ghost var es := DirAndFile(vol, last);
    DotFound(vol.Nodes0(), es);
    var ok := vol.Rm("d/.");
    DFound(vol.Nodes0(), es);
  }

  // ------------------------------------------------------ an entry without room

  /** A volume that its root directory, of one block, and four inode blocks fill;
      i files have been created in it. */
  ghost predicate Packed(vol: Volume, i: nat)
    reads vol
  {
    && vol.Valid() && |vol.Nodes0()| == |vol.ino| == vol.h.nextInode == i + 1 && |ITab(vol.h)| == 4
    && vol.h.nextBlock == vol.h.nblocks && vol.h.dregLen == 1
    && (forall m :: 1 <= m < |vol.Nodes0()| ==> vol.Nodes0()[m] == FileNode([]))
    && vol.Nodes0()[0].DirNode? && vol.Nodes0()[0].blocks == 1
    && forall j :: 0 <= j < |vol.Nodes0()[0].entries| ==> vol.Nodes0()[0].entries[j].inodeIndex <= i
  }

  /** One more file of the name "f"; since no lookup finds anything in the root,
      the name may be used again and again. */
  method Pack(vol: Volume, i: nat)
    requires Packed(vol, i) && i < 127 && |vol.Nodes0()[0].entries| <= 128
    modifies vol
    ensures vol.outcome == Success && Packed(vol, i + 1)
    ensures var es := old(vol.Nodes0()[0].entries);
            vol.Nodes0()[0].entries == if |es| < 128 then es + [DirEntry(i + 1, Pad("f"))] else es
  {
    hide Kept, Consistent, ICacheOk, DCacheOk, XCacheOk, View, NodeBlocks, CreateParent, Resolve, Pad, Given,
         EntriesOf, InodesOf, FlatFrom, Tree;
    ghost var view := vol.Nodes0();
    RootSize(vol);
    NotFoundThere(view, "f");
    ghost var par, linked;
    var ok;
    ok, par, linked := vol.Create(File, "f");
    assert vol.Nodes0()[0] == vol.Nodes0()[..|view|][0];
    forall m | 1 <= m < |view| ensures vol.Nodes0()[m] == view[m] {
      assert vol.Nodes0()[m] == vol.Nodes0()[..|view|][m];
    }
  }

  lemma NotFoundThere(view: seq<Node>, name: string)
    requires view != [] && view[0].DirNode? && view[0].blocks <= 1 && PlainName(name) && |name| <= 28
    ensures Target(view, name) == Miss(NoFile)
    ensures CreateParent(view, name) == Hit(0, 0) && NewName(name) == name && name[|name| - 1] != '/'
  {
    hide Lookup;
    OneBlockBlind(view[0], name);
    CompLenUnique(name, |name|);
    assert name[..|name|] == name;
    ResolveStep(view, 0, name);
    PlainIsName(name);
  }

  /** The 127th file of a root of one block, on a full disk: its creation reports
      success, but no directory lists it, and no path leads to it. */
  method CreationUnlisted(vol: Volume)
    requires Formattable(vol, 6)
    modifies vol
    ensures vol.outcome == Success && vol.Valid() && |vol.Nodes0()| == 128 && vol.Nodes0()[127] == FileNode([])
    ensures forall path :: Target(vol.Nodes0(), path).Hit? ==> Target(vol.Nodes0(), path).child != 127
  {
    hide Packed, View, Kept, Consistent, ICacheOk, DCacheOk, XCacheOk, Resolve, Pad, NodeBlocks;
    vol.Format(6, 7, 4, 1, 1);
    FirstPacked(vol);
    for i := 0 to 126
      invariant Packed(vol, i) && vol.Nodes0() != [] && vol.Nodes0()[0].DirNode? && |vol.Nodes0()[0].entries| == i + 2
    {
      PackedRoot(vol, i);
      Pack(vol, i);
      PackedRoot(vol, i + 1);
    }
    PackedRoot(vol, 126);
    ghost var es := vol.Nodes0()[0].entries;
    Pack(vol, 126);
    PackedRoot(vol, 127);
    NotInRoot(vol.Nodes0(), 127);
  }

  lemma FirstPacked(vol: Volume)
    requires vol.Valid() && |vol.Nodes0()| == |vol.ino| == 1 && NewView(vol.Nodes0()[0], Dir, 0, 0, 1)
    requires Formatted(vol.h, 6, 4, 1, 1)
    ensures Packed(vol, 0) && |vol.Nodes0()[0].entries| == 2
  {
    hide View, Kept, Consistent, ICacheOk, DCacheOk, XCacheOk, NodeBlocks, ListsInUse, FlatFrom, EntriesOf, InodesOf,
         Sized;
  }

  lemma PackedRoot(vol: Volume, i: nat)
    requires Packed(vol, i)
    ensures vol.Valid() && |vol.Nodes0()| == i + 1 && vol.Nodes0()[0].DirNode?
    ensures forall m :: 1 <= m < |vol.Nodes0()| ==> vol.Nodes0()[m] == FileNode([])
    ensures forall j :: 0 <= j < |vol.Nodes0()[0].entries| ==> vol.Nodes0()[0].entries[j].inodeIndex <= i
  {
    hide View, Kept, Consistent, ICacheOk, DCacheOk, XCacheOk, NodeBlocks;
  }

  // ---------------------------------------------------------- an empty region

  /** A write of no bytes to a new file, and one of 256 blocks' worth, leave it
      with a region of no blocks. */
  method EmptyRegion(vol: Volume, data: seq<Byte>) returns (n: int)
    requires Formattable(vol, 100) && (|data| == 0 || |data| == 256 * 4096)
    modifies vol
    ensures !Filled(vol)
  {
    hide View, NodeBlocks, Stocked, Given, Pad, NameMatches, Kept, Consistent, ICacheOk, DCacheOk, XCacheOk, Resolve,
         GoesHollow, Filled, Name, OnlyLink;
    ghost var es := NewRoot(vol);
    StockedBlocks(vol, es);
    ListedNext(es, 1);
    AddInode(vol, File, Name(1), es);
    es := es + [DirEntry(1, Pad(Name(1)))];
    StockedBlocks(vol, es);
    FirstLink(es);
    LinkFound(vol.Nodes0(), es, 2, 2, Name(1));
    RegionExample(vol.h, vol.ino[1]);
    n := WriteFills(vol, Name(1), data, 0);
  }

  lemma FirstLink(es: seq<DirEntry>)
    requires Listed(es, 1)
    ensures |es| == 3 && OnlyLink(es, 2, Name(1)) && es[2].inodeIndex == 1
  {
    hide Name, Pad;
    NamesDiffer(1, 1);
    DotDiffers(es[0].name, 1);
    DotDiffers(es[1].name, 1);
  }

  // ------------------------------------------------- entries that were none

  /** The root once the entry e has been moved into the gap the first file left. */
  lemma StrayFound(es: seq<DirEntry>, b: nat, e: DirEntry)
    requires 4 <= |es| && "." <= es[0].name && ".." <= es[1].name && NameMatches(e.name, "s") && 2 <= b
    ensures Lookup(DirNode(Dropped(es, 2, e), b), "s") == Found(e.inodeIndex)
  {
    var es' := Dropped(es, 2, e);
    assert es'[0].name[0] == "."[0] && es'[1].name[0] == ".."[0] && "s"[0] == 's';
    assert !NameMatches(es'[0].name, "s") && !NameMatches(es'[1].name, "s") && NameMatches(es'[2].name, "s");
    FirstMatchIs(es', "s", 0, 2);
  }

  lemma RootView(vol: Volume, es: seq<DirEntry>, b: nat)
    requires vol.Nodes0() != [] && vol.Nodes0()[0] == DirNode(es, b) && Sized(vol.ino[0])
    ensures vol.ino != [] && vol.ino[0].ftype.Dir? && NodeView(vol.disk, vol.ino[0]) == DirNode(es, b)
  {
    hide NodeBlocks;
  }

  /** What a consistent table and cache say of the root, once its block is loaded. */
  lemma RootLoaded(h: HBlock, disk: seq<Block>, ino: seq<INode>, own: seq<Tag>, c: Caches)
    requires Clean(h, disk, ino, own, c) && ino != [] && 0 < |ITab(h)|
    ensures |InodesOf(BlockAt(disk, ITab(h)[0]))| == 32 == |c.icache|
    ensures (if c.icindex == 0 then c.icache else InodesOf(BlockAt(disk, ITab(h)[0])))[0] == ino[0]
  {
    assert NodeOnDisk(h, disk, 0) == ino[0];
  }

  lemma FoundInUse(view: seq<Node>, name: string)
    requires view != []
    ensures ViewInUse(view) && Lookup(view[0], name).Found? ==> Lookup(view[0], name).child < |view|
  {
  }

  /** Looking up a name in the root that leads to an inode beyond the table, and
      loading that one, takes blocks into use without a note of it on the disk. */
  method LookUpStray(vol: Volume, ghost es: seq<DirEntry>, ghost b: nat) returns (child: nat)
    requires vol.Owning() && Clean(vol.h, vol.disk, vol.ino, vol.own, vol.InCaches())
    requires vol.Nodes0() != [] && vol.Nodes0()[0] == DirNode(es, b) && Sized(vol.ino[0])
    requires Lookup(DirNode(es, b), "s").Found? && RegionSpace(vol.h)
    requires 32 * |ITab(vol.h)| <= Lookup(DirNode(es, b), "s").child && 0 < |ITab(vol.h)|
    modifies vol
    ensures BlockAt(vol.disk, 0).HeaderBlock? && BlockAt(vol.disk, 0).header.nextBlock < vol.h.nextBlock
    ensures !old(vol.AllInUse()) && !vol.Owning() && !Apart(vol)
  {
    hide View, NodeBlocks, Kept, Clean, NodeKept, DCacheOk, EntriesOf, NameMatches, Sized, Lookup, ListsInUse,
         NamesBelow, ViewInUse, InodesOf, FlatFrom, Tree;
    ghost var c := vol.InCaches();
    CleanInUse(vol);
    FoundInUse(vol.Nodes0(), "s");
    vol.OwnParts();
    KeptTable(vol.h, vol.disk, vol.own, c, Upkeep(vol.h.nextInode, vol.h.nextInode, vol.solid), 0);
    RootView(vol, es, b);
    RootLoaded(vol.h, vol.disk, vol.ino, vol.own, c);
    vol.LoadInode(0);
    child := vol.ScanDir(vol.icache[0], "s", 0);
    vol.GetIblockC(child / 32, false, false);
  }

  /** 128 files in the root of a new volume, the first of them removed, and the
      cache still on what the root's second block held before. */
  method MoveStray(vol: Volume) returns (ghost es: seq<DirEntry>)
    requires Formattable(vol, 100) && vol.xcaddr == 10 && NameMatches(EntriesOf(vol.xcache)[1].name, "s")
    modifies vol
    ensures vol.Owning() && Clean(vol.h, vol.disk, vol.ino, vol.own, vol.InCaches())
    ensures |es| == 130 && vol.Nodes0() != [] && Sized(vol.ino[0])
    ensures vol.Nodes0()[0] == DirNode(Dropped(es, 2, EntriesOf(old(vol.xcache))[1]), 2)
    ensures "." <= es[0].name && ".." <= es[1].name && RegionSpace(vol.h) && |ITab(vol.h)| == 8
  {
    hide View, NodeBlocks, OnlyLink, Name, Stocked, Given, Kept, Consistent, ICacheOk, DCacheOk, XCacheOk,
         Clean, LostLast, FreshLast, LastLoaded, Dropped, EntriesOf, NameMatches, Sized;
    es := FillRoot(vol, 128);
    StockedBlocks(vol, es);
    FirstRemoval(es, NodeBlocks(vol.ino[0]), vol.xcache);
    StrayMoved(es, vol.xcache);
    RemoveStocked(vol, Name(1), es, 2);
  }

  lemma StrayMoved(es: seq<DirEntry>, xcache: Block)
    requires |es| == 130
    ensures Replacement(es, Run(9, 2), 2, 10, xcache) == EntriesOf(xcache)[1]
  {
    hide EntriesOf;
    assert At(Run(9, 2), 1) == 10;
  }

  /** A disk with the directory entries of an older volume, formatted while the
      general purpose cache is on one of them: a removal moves an old entry into
      the root, and looking up its name takes blocks into use. */
  method StrayEntry(vol: Volume) returns (child: nat)
    requires Formattable(vol, 100) && vol.xcaddr == 10
    requires NameMatches(EntriesOf(vol.xcache)[1].name, "s") && 256 <= EntriesOf(vol.xcache)[1].inodeIndex
    modifies vol
    ensures BlockAt(vol.disk, 0).HeaderBlock? && BlockAt(vol.disk, 0).header.nextBlock < vol.h.nextBlock
    ensures !vol.Owning() && !Apart(vol)
  {
    hide View, NodeBlocks, Kept, Clean, Dropped, EntriesOf, NameMatches, Sized, Lookup;
    ghost var e := EntriesOf(vol.xcache)[1];
    ghost var es := MoveStray(vol);
    StrayFound(es, 2, e);
    child := LookUpStray(vol, Dropped(es, 2, e), 2);
  }

  // ------------------------------------------------------ bytes that are entries

  /** The caller's bytes begin with what reads as an entry for an inode beyond the
      table, of the name "s...". */
  predicate ReadsAsEntry(data: seq<Byte>) {
    |data| == 256 * 4096 && 256 <= Number(data, 0) && data[4] == 115
  }

  lemma EntryFromData(b: Block, data: seq<Byte>)
    requires ReadsAsEntry(data) && HasFirst(b, data)
    ensures 256 <= EntriesOf(b)[0].inodeIndex && NameMatches(EntriesOf(b)[0].name, "s")
  {
    var e := EntryIn(b.bytes, 0);
    assert forall j :: 0 <= j < 4096 ==> b.bytes[j] == data[..4096][j];
    assert e.name[0] == b.bytes[4..32][0] as char == 's';
    assert EntriesOf(b)[0] == e;
  }

  /** A block of the first 4096 bytes of data. */
  predicate HasFirst(b: Block, data: seq<Byte>)
    requires |data| == 256 * 4096
  {
    b.DataBlock? && |b.bytes| == 4096 && b.bytes == data[..4096]
  }

  /** The first request of the write is for no blocks, the second for 255. */
  lemma BothRequests(h: HBlock, nd: INode, ndisk: nat)
    requires Given(nd, File, 0, 0) && h.nextBlock == 11 && h.nblocks == 100 <= ndisk
    ensures NodeBlocks(nd) == [] && FirstPart(256 * 4096, 0) == 4096
    ensures RegionSize(256 * 4096) == 0 && RegionSize(255 * 4096) == 255
    ensures FreeSlot(nd) && h.nextBlock < ndisk
  {
  }

  /** 254 files fill the two blocks of the root, all of them empty but the first,
      that has got a region of no blocks; the general purpose cache is on the first
      free block. */
  ghost predicate FullRoot(vol: Volume, es: seq<DirEntry>)
    reads vol
  {
    && Stocked(vol, es) && Listed(es, 254) && vol.h.nextInode == 255 && NodeBlocks(vol.ino[0]) == Run(9, 2)
    && RegionSpace(vol.h) && vol.h.nextBlock == 11 && vol.h.nblocks == 100 && vol.h.iregLen == 8 && vol.xcaddr == 11
    && forall m :: 1 <= m < |vol.Nodes0()| ==> vol.Nodes0()[m].FileNode?
  }

  /** A full root, and 256 blocks of data written to its first file. */
  method WriteBehind(vol: Volume, data: seq<Byte>) returns (ghost es: seq<DirEntry>)
    requires Formattable(vol, 100) && ReadsAsEntry(data)
    modifies vol
    ensures FullRoot(vol, es) && HasFirst(vol.xcache, data)
  {
    hide View, NodeBlocks, Listed, OnlyLink, Name, Stocked, Given, Kept, Consistent, ICacheOk, DCacheOk, XCacheOk,
         Resolve, GoesHollow, RegionSize, FirstPart, Reach, Fits, Room, FreeSlot, Landed, ListsInUse, Number,
         SolidNode, Shown, Volume.HollowLeft, EntriesOf, InodesOf, FlatFrom, Tree;
    es := FillRoot(vol, 254);
    StockedBlocks(vol, es);
    FirstOfMany(es, 254);
    LinkFound(vol.Nodes0(), es, 2, 2, Name(1));
    DiskHolds(vol);
    BothRequests(vol.h, vol.ino[1], |vol.disk|);
    ghost var h0, view, ino := vol.h, vol.Nodes0(), vol.ino;
    var n := vol.Write(Name(1), data, 0);
    StillStocked(vol, es, h0, view, ino, 1);
  }

  lemma DiskHolds(vol: Volume)
    requires vol.Valid()
    ensures vol.h.nblocks <= |vol.disk|
  {
    hide Kept, ICacheOk, DCacheOk, XCacheOk, Tree, Owned, Nodes;
    vol.Whole();
  }

  lemma FirstOfMany(es: seq<DirEntry>, n: nat)
    requires 1 <= n < 256 && Listed(es, n)
    ensures |es| == n + 2 && OnlyLink(es, 2, Name(1)) && es[2].inodeIndex == 1
  {
    hide Name, Pad;
    NamesDiffer(1, 1);
    DotDiffers(es[0].name, 1);
    DotDiffers(es[1].name, 1);
  }

  /** New bytes in a file leave the root as it was. */
  lemma StillStocked(vol: Volume, es: seq<DirEntry>, h0: HBlock, view: seq<Node>, ino: seq<INode>, c: nat)
    requires vol.Valid() && vol.h == h0 && 0 < |view| == |ino| == h0.nextInode < 256 && |ITab(h0)| == 8
    requires h0.nextBlock <= h0.nblocks && h0.dregLen == 2 && view[0] == DirNode(es, 2) && |es| <= 256
    requires |NodeBlocks(ino[0])| == 2 && forall b :: 0 <= b < 2 ==> NodeBlocks(ino[0])[b] < NO_BLOCK
    requires 1 <= c < |ino| && |vol.ino| == |ino| && vol.ino == ino[c := vol.ino[c]]
    requires |vol.Nodes0()| == |view| && vol.Nodes0() == view[c := vol.Nodes0()[c]]
    ensures Stocked(vol, es) && NodeBlocks(vol.ino[0]) == NodeBlocks(ino[0])
    ensures forall m :: 1 <= m < |view| && m != c ==> vol.Nodes0()[m] == view[m]
  {
    hide Kept, Consistent, ICacheOk, DCacheOk, XCacheOk, View, NodeBlocks, ITab;
  }

  /** A directory of few blocks has an unused region slot. */
  lemma RootSlot(vol: Volume)
    requires vol.Valid() && vol.ino != [] && |NodeBlocks(vol.ino[0])| == 2
    ensures FreeSlot(vol.ino[0])
  {
    hide Kept, ICacheOk, DCacheOk, XCacheOk, Tree, Owned, View;
    vol.Whole();
    RootIsDir(vol.h, vol.disk, vol.ino, vol.own, vol.live, vol.pos);
    var nd := vol.ino[0];
    assert NodeOk(nd);
    if nd.regStart[22] != 0 { FullTable(nd.regStart, nd.regLen, 0); }
  }

  /** One more file: the root grows by the block the cache is on. */
  method GrowRoot(vol: Volume, ghost es: seq<DirEntry>) returns (ghost es': seq<DirEntry>)
    requires FullRoot(vol, es)
    modifies vol
    ensures es' == es + [DirEntry(255, Pad(Name(255)))] && vol.Valid() && |vol.Nodes0()| == |vol.ino| == 256
    ensures vol.Nodes0()[0] == DirNode(es', 4) && At(NodeBlocks(vol.ino[0]), 2) == 11
    ensures forall m :: 1 <= m < 256 ==> vol.Nodes0()[m].FileNode?
    ensures RegionSpace(vol.h) && |ITab(vol.h)| == 8
    ensures vol.xcaddr == old(vol.xcaddr) && vol.xcache == old(vol.xcache)
  {
    hide Kept, Consistent, ICacheOk, DCacheOk, XCacheOk, View, NodeBlocks, CreateParent, Resolve, Pad, NameMatches,
         ITab, FlatFrom, Given, Name, Listed, ListsInUse;
    StockedBlocks(vol, es);
    ListedNext(es, 255);
    NoSuchName(vol.Nodes0(), es, Name(255));
    RootSize(vol);
    RootSlot(vol);
    ghost var h0, view, ino := vol.h, vol.Nodes0(), vol.ino;
    ghost var par, linked;
    var ok;
    ok, par, linked := vol.Create(File, Name(255));
    RootSize(vol);
    es' := es + [DirEntry(255, Pad(Name(255)))];
    Grown(view, vol.Nodes0(), es, Name(255), h0, vol.h, ino, vol.ino);
  }

  lemma Grown(view: seq<Node>, view': seq<Node>, es: seq<DirEntry>, name: string, h0: HBlock, h: HBlock,
              ino: seq<INode>, ino': seq<INode>)
    requires |view| == |ino| == 255 == h0.nextInode && view[0] == DirNode(es, 2) && |es| == 256 == ino[0].eof
    requires h0.nextBlock == 11 && h0.dregLen == 2 && |ITab(h0)| == 8 && NodeBlocks(ino[0]) == Run(9, 2)
    requires RegionSpace(h0) && h0.iregLen == 8 && h0.nblocks == 100
    requires Created(view, view', 0, name, File, h.dregLen, true) && Linking(h0, h, ino, ino', 0, File, true)
    requires |NodeBlocks(ino'[0])| == if view'[0].DirNode? then view'[0].blocks else 0
    requires forall m :: 1 <= m < 255 ==> view[m].FileNode?
    ensures view'[0] == DirNode(es + [DirEntry(255, Pad(name))], 4) && |view'| == 256
    ensures At(NodeBlocks(ino'[0]), 2) == 11 && RegionSpace(h) && |ITab(h)| == 8
    ensures forall m :: 1 <= m < 256 ==> view'[m].FileNode?
  {
    hide NodeBlocks, ITab, Pad, Given;
    forall m | 0 <= m < 255
      ensures view'[m] == if m == 0 then Added(2, view[0], DirEntry(255, Pad(name))) else view[m]
    {
      assert view'[m] == view'[..255][m];
    }
    assert NodeBlocks(ino'[0]) == Run(9, 2) + Run(11, 2);
  }

  lemma FirstStill(es: seq<DirEntry>)
    requires Listed(es, 254)
    ensures var es' := es + [DirEntry(255, Pad(Name(255)))];
            && |es'| == 257 && OnlyLink(es', 2, Name(1)) && es'[2].inodeIndex == 1
            && "." <= es'[0].name && ".." <= es'[1].name
  {
    hide Name, Pad, NameMatches;
    FirstOfMany(es, 254);
    var es' := es + [DirEntry(255, Pad(Name(255)))];
    forall j | 0 <= j < |es'| && es'[j].inodeIndex == 1 ensures j == 2 {
    }
  }

  lemma BytesMoved(es: seq<DirEntry>, blocks: seq<nat>, xcache: Block)
    requires |es| == 257 && At(blocks, 2) == 11
    ensures Replacement(es, blocks, 2, 11, xcache) == EntriesOf(xcache)[0]
  {
    hide EntriesOf;
  }

  /** On any disk, and with no more than calls of the file system from its formatting
      on: bytes a caller has written to a file become a directory entry.  A write
      that is given an empty region leaves them in the general purpose cache, on the
      block the root then grows by; a removal takes them for the root's last entry. */
  method BytesAsEntry(vol: Volume, data: seq<Byte>) returns (child: nat)
    requires Formattable(vol, 100) && ReadsAsEntry(data)
    modifies vol
    ensures BlockAt(vol.disk, 0).HeaderBlock? && BlockAt(vol.disk, 0).header.nextBlock < vol.h.nextBlock
    ensures !vol.Owning() && !Apart(vol)
  {
    hide View, NodeBlocks, Kept, Clean, Dropped, EntriesOf, NameMatches, Sized, Lookup, Stocked, Listed, OnlyLink,
         ReadsAsEntry, Name, Pad, Replacement, FreshLast, LastLoaded, LostLast, Consistent, ICacheOk, DCacheOk,
         XCacheOk;
    ghost var es := WriteBehind(vol, data);
    ghost var b := vol.xcache;
    EntryFromData(b, data);
    FirstStill(es);
    ghost var es' := GrowRoot(vol, es);
    BytesMoved(es', NodeBlocks(vol.ino[0]), b);
    RemoveFile(vol, Name(1), es', 4, 2);
    StrayFound(es', 4, EntriesOf(b)[0]);
    child := LookUpStray(vol, Dropped(es', 2, EntriesOf(b)[0]), 4);
  }
}
