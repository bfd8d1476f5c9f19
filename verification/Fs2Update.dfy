/** How single block writes, allocations and inode updates act on a volume:
    what each keeps, and what it changes in the view. */
module Fs2Update {
  import opened Fs2Layout
  import opened Fs2State

  /** Between the first change to inode i in the cache and its saving: nd is the
      cached inode, the disk still holds the old one. */
  ghost predicate Mid(h: HBlock, disk: seq<Block>, ino: seq<INode>, own: seq<Tag>, i: nat, nd: INode) {
    && i < |ino| && HeaderOk(h, |disk|)
    && Owned(h, ino[i := nd], own) && Nodes(ino[i := nd])
    && Stored(h, disk, ino)
    && nd.ftype == ino[i].ftype && nd.iparent == ino[i].iparent
  }

  /** No view but that of inode i has changed. */
  ghost predicate OthersSame(disk: seq<Block>, disk': seq<Block>, ino: seq<INode>, i: nat) {
    forall m :: 0 <= m < |ino| && m != i ==> NodeView(disk', ino[m]) == NodeView(disk, ino[m])
  }

  lemma OthersLater(disk0: seq<Block>, disk: seq<Block>, disk': seq<Block>, ino: seq<INode>, i: nat)
    requires OthersSame(disk0, disk, ino, i) && OthersSame(disk, disk', ino, i)
    ensures OthersSame(disk0, disk', ino, i)
  {
    hide NodeView;
  }

  /** The blocks hold `e`, from the beginning of the file. */
  ghost predicate Holds(disk: seq<Block>, blocks: seq<nat>, e: seq<Byte>) {
    |e| <= 4096 * |blocks| && forall p :: 0 <= p < |e| ==> ByteAt(disk, blocks, p) == e[p]
  }

  /** The tags of n more blocks of inode i. */
  function Tags(ft: FType, i: nat, from: nat, n: nat): (r: seq<Tag>)
    ensures |r| == n && forall j :: 0 <= j < n ==> r[j] == TagOf(ft, i, from + j)
  {
    seq(n, (j: nat) => TagOf(ft, i, from + j))
  }

  function Splice(bytes: seq<Byte>, off: nat, chunk: seq<Byte>): (r: seq<Byte>)
    requires off + |chunk| <= |bytes|
    ensures |r| == |bytes|
    ensures forall p :: 0 <= p < |bytes| ==>
              r[p] == if off <= p < off + |chunk| then chunk[p - off] else bytes[p]
  {
    bytes[..off] + chunk + bytes[off + |chunk|..]
  }

  // ------------------------------------------------------- data block writes

  /** Writing a data block of file i leaves inodes, header and the other files alone. */
  lemma PutBlock(h: HBlock, disk: seq<Block>, ino: seq<INode>, own: seq<Tag>, i: nat, nd: INode, m: nat, b: Block)
    requires Mid(h, disk, ino, own, i, nd) && m < |NodeBlocks(nd)|
    ensures var a := NodeBlocks(nd)[m];
            && 0 < a < |own| <= |disk| && own[a] == TagOf(nd.ftype, i, m)
            && Mid(h, disk[a := b], ino, own, i, nd)
            && OthersSame(disk, disk[a := b], ino, i)
  {
    hide NodeView, NodeOnDisk, NodeOk, ITab;
    var a, ino1 := NodeBlocks(nd)[m], ino[i := nd];
    assert Owns(own, i, ino1[i]);
    SameInodes(h, disk, disk[a := b], own, |ino|);
    assert forall k :: 0 <= k < |ino| && k != i ==> ino1[k] == ino[k];
    OtherViews(disk, disk[a := b], own, ino, i);
  }

  /** Appending a chunk at the end of what a file's blocks hold. */
  lemma HoldsPut(disk: seq<Block>, own: seq<Tag>, i: nat, blocks: seq<nat>, e: seq<Byte>,
                 m: nat, off: nat, bytes: seq<Byte>, chunk: seq<Byte>)
    requires Holds(disk, blocks, e) && OwnsBlocks(own, i, File, blocks) && |own| <= |disk|
    requires m < |blocks| && |e| == 4096 * m + off && off + |chunk| <= 4096 && |bytes| == 4096
    requires off == 0 || bytes == BytesOf(BlockAt(disk, blocks[m]))
    ensures Holds(disk[blocks[m] := DataBlock(Splice(bytes, off, chunk))], blocks, e + chunk)
  {
    hide ByteAt, Splice;
    var disk' := disk[blocks[m] := DataBlock(Splice(bytes, off, chunk))];
    forall p | 0 <= p < |e + chunk| ensures ByteAt(disk', blocks, p) == (e + chunk)[p] {
      if p < |e| { assert ByteAt(disk, blocks, p) == e[p]; }
      if p / 4096 == m {
        PutByte(disk, blocks, e, m, off, bytes, chunk, p);
      } else {
        OtherByte(disk, own, i, blocks, m, DataBlock(Splice(bytes, off, chunk)), p);
      }
    }
  }

  /** A byte of the block that is written. */
  lemma PutByte(disk: seq<Block>, blocks: seq<nat>, e: seq<Byte>, m: nat, off: nat, bytes: seq<Byte>, chunk: seq<Byte>,
                p: nat)
    requires m < |blocks| && blocks[m] < |disk| && p / 4096 == m && p < |e + chunk|
    requires |e| == 4096 * m + off && off + |chunk| <= 4096 && |bytes| == 4096
    requires off == 0 || bytes == BytesOf(BlockAt(disk, blocks[m]))
    requires p < |e| ==> ByteAt(disk, blocks, p) == e[p]
    ensures ByteAt(disk[blocks[m] := DataBlock(Splice(bytes, off, chunk))], blocks, p) == (e + chunk)[p]
  {
    hide BytesOf, Splice;
    DataBytes(Splice(bytes, off, chunk));
    assert p % 4096 == p - 4096 * m;
  }

  lemma DataBytes(bytes: seq<Byte>)
    requires |bytes| == 4096
    ensures BytesOf(DataBlock(bytes)) == bytes
  {
  }

  /** A byte of another block of the file. */
  lemma OtherByte(disk: seq<Block>, own: seq<Tag>, i: nat, blocks: seq<nat>, m: nat, b: Block, p: nat)
    requires OwnsBlocks(own, i, File, blocks) && |own| <= |disk| && m < |blocks| && p / 4096 != m && p / 4096 < |blocks|
    ensures ByteAt(disk[blocks[m] := b], blocks, p) == ByteAt(disk, blocks, p)
  {
    assert own[blocks[p / 4096]] == FileTag(i, p / 4096) && own[blocks[m]] == FileTag(i, m);
  }

  // -------------------------------------------------------------- allocation

  /** h with n more blocks in use, written to block 0. */
  function Bump(h: HBlock, n: nat): HBlock { h.(nextBlock := h.nextBlock + n) }

  /** Ownership survives later allocations. */
  lemma OwnsLater(own: seq<Tag>, more: seq<Tag>, i: nat, ft: FType, blocks: seq<nat>)
    requires OwnsBlocks(own, i, ft, blocks)
    ensures OwnsBlocks(own + more, i, ft, blocks)
  {
  }

  lemma OwnsGrown(own: seq<Tag>, i: nat, ft: FType, blocks: seq<nat>, n: nat)
    requires OwnsBlocks(own, i, ft, blocks) && 0 < |own|
    ensures OwnsBlocks(own + Tags(ft, i, |blocks|, n), i, ft, blocks + Run(|own|, n))
  {
  }

  lemma OwnedGrow(h: HBlock, ino: seq<INode>, own: seq<Tag>, i: nat, n: nat, nd': INode)
    requires Owned(h, ino, own) && Nodes(ino) && i < |ino|
    requires NodeOk(nd') && nd'.ftype == ino[i].ftype
    requires NodeBlocks(nd') == NodeBlocks(ino[i]) + Run(h.nextBlock, n)
    ensures var own' := own + Tags(nd'.ftype, i, |NodeBlocks(ino[i])|, n);
            Owned(Bump(h, n), ino[i := nd'], own') && Nodes(ino[i := nd'])
  {
    hide NodeOk, OwnsBlocks;
    var more := Tags(nd'.ftype, i, |NodeBlocks(ino[i])|, n);
    var own', ino' := own + more, ino[i := nd'];
    forall k | 0 <= k < |ino'| ensures Owns(own', k, ino'[k]) {
      assert Owns(own, k, ino[k]);
      if k == i {
        OwnsGrown(own, i, nd'.ftype, NodeBlocks(ino[i]), n);
      } else {
        OwnsLater(own, more, k, ino[k].ftype, NodeBlocks(ino[k]));
      }
    }
  }

  /** Giving inode i the next n free blocks. */
  lemma GrowInode(h: HBlock, disk: seq<Block>, ino: seq<INode>, own: seq<Tag>, i: nat, nd: INode, n: nat, nd': INode)
    requires Mid(h, disk, ino, own, i, nd) && h.nextBlock + n <= h.nblocks
    requires NodeOk(nd') && nd'.ftype == nd.ftype && nd'.iparent == nd.iparent
    requires NodeBlocks(nd') == NodeBlocks(nd) + Run(h.nextBlock, n)
    ensures var h', disk' := Bump(h, n), disk[0 := HeaderBlock(Bump(h, n))];
            var own' := own + Tags(nd.ftype, i, |NodeBlocks(nd)|, n);
            Mid(h', disk', ino, own', i, nd') && OthersSame(disk, disk', ino, i)
  {
    hide EntriesOf, InodesOf, BytesOf;
    var h', disk' := Bump(h, n), disk[0 := HeaderBlock(Bump(h, n))];
    OwnedGrow(h, ino[i := nd], own, i, n, nd');
    assert ino[i := nd][i := nd'] == ino[i := nd'];
    HeaderWrite(h, disk, ino, own, i, nd, h');
  }

  /** Writing the header back touches neither inodes nor files. */
  lemma HeaderWrite(h: HBlock, disk: seq<Block>, ino: seq<INode>, own: seq<Tag>, i: nat, nd: INode, h': HBlock)
    requires Mid(h, disk, ino, own, i, nd)
    requires h'.nextInode == h.nextInode && ITab(h') == ITab(h)
    ensures Stored(h', disk[0 := HeaderBlock(h')], ino)
    ensures OthersSame(disk, disk[0 := HeaderBlock(h')], ino, i)
  {
    hide NodeView, NodeOk, ITab, EntriesOf, InodesOf, BytesOf;
    var disk' := disk[0 := HeaderBlock(h')];
    SameInodes(h, disk, disk', own, |ino|);
    assert forall k :: 0 <= k < |ino| ==> NodeOnDisk(h', disk', k) == NodeOnDisk(h, disk', k);
    var ino1 := ino[i := nd];
    SameViews(disk, disk', own, ino1);
    forall k | 0 <= k < |ino| && k != i ensures NodeView(disk', ino[k]) == NodeView(disk, ino[k]) {
      assert View(disk', ino1)[k] == NodeView(disk', ino[k]) && View(disk, ino1)[k] == NodeView(disk, ino[k]);
    }
  }

  /** Allocation moves no block that was in use. */
  lemma HoldsGrow(disk: seq<Block>, disk': seq<Block>, own: seq<Tag>, i: nat, blocks: seq<nat>, more: seq<nat>,
                  e: seq<Byte>)
    requires Holds(disk, blocks, e) && OwnsBlocks(own, i, File, blocks) && |own| <= |disk|
    requires 0 < |disk| == |disk'| && disk' == disk[0 := disk'[0]]
    ensures Holds(disk', blocks + more, e)
  {
    forall p | 0 <= p < |e| ensures ByteAt(disk', blocks + more, p) == e[p] {
      assert ByteAt(disk, blocks, p) == e[p];
      assert 0 < blocks[p / 4096] < |own|;
    }
  }

  // -------------------------------------------------------- writes under way

  /** The contents of the three caches. */
  datatype Caches = Caches(icindex: nat, icaddr: nat, icache: seq<INode>,
                           dcaddr: nat, dcache: seq<DirEntry>, xcaddr: nat, xcache: Block)

  /** A write to file i is under way: the cached inode may have grown past the
      stored one, and its blocks hold the bytes e. */
  ghost predicate WriteState(h: HBlock, disk: seq<Block>, ino: seq<INode>, own: seq<Tag>, c: Caches, i: nat,
                             e: seq<Byte>) {
    && i < |ino| && |c.icache| == 32 && c.icindex == i / 32 < |ITab(h)|
    && Mid(h, disk, ino, own, i, c.icache[i % 32]) && ino[i].ftype.File?
    && c.icache[i % 32].eof == ino[i].eof
    && ICacheOk(h, ino[i := c.icache[i % 32]], c.icindex, c.icaddr, c.icache)
    && DCacheOk(disk, own, c.dcaddr, c.dcache) && XCacheOk(disk, own, c.xcaddr, c.xcache)
    && Holds(disk, NodeBlocks(c.icache[i % 32]), e)
  }

  /** An inode with n more blocks, from a on, in its region slot s. */
  function WithRegion(nd: INode, s: nat, a: nat, n: nat): INode
    requires TableShape(nd) && s < 23
  {
    nd.(regStart := nd.regStart[s := a], regLen := nd.regLen[s := n])
  }

  /** The header, the disk and the cached inode after a successful growth that
      filled region slot s. */
  ghost predicate Grown(h0: HBlock, disk0: seq<Block>, icache0: seq<INode>,
                        h: HBlock, disk: seq<Block>, icache: seq<INode>, slot: nat, s: nat, rsz: nat)
    requires slot < |icache0| && TableShape(icache0[slot])
  {
    && 0 < |disk0| && 0 < h0.nextBlock && h0.nextBlock + rsz <= h0.nblocks
    && h == Bump(h0, rsz) && disk == disk0[0 := HeaderBlock(h)]
    && s < 23 && FirstFree(icache0[slot].regStart, s)
    && icache == icache0[slot := WithRegion(icache0[slot], s, h0.nextBlock, rsz)]
  }

  /** A region slot of the inode is still unused; so are two. */
  predicate FreeSlot(nd: INode) { |nd.regStart| == 23 && nd.regStart[22] == 0 }

  /** A table that fills from the front has a free slot exactly if its last is free. */
  lemma FreeSlotMeans(nd: INode)
    requires TableShape(nd) && ZeroTail(nd.regStart)
    ensures FreeSlot(nd) <==> exists s :: 0 <= s < 23 && nd.regStart[s] == 0
  {
    if s :| 0 <= s < 23 && nd.regStart[s] == 0 { assert s == 22 || nd.regStart[22] == 0; }
  }

  /** Why an inode is not given another region. */
  function GrowthRefusal(nd: INode): (o: Outcome)
    ensures o == FileFull || o == DiskFull
  {
    if 0 in nd.regStart then DiskFull else FileFull
  }

  lemma GrowthRefusalMeans(nd: INode)
    requires TableShape(nd)
    ensures GrowthRefusal(nd) == FileFull <==> forall s :: 0 <= s < 23 ==> nd.regStart[s] != 0
  {
    assert forall s :: 0 <= s < 23 ==> nd.regStart[s] in nd.regStart;
  }

  predicate TwoFree(nd: INode) { |nd.regStart| == 23 && nd.regStart[21] == 0 && nd.regStart[22] == 0 }

  /** No region in use is empty. */
  predicate SolidNode(nd: INode) { TableShape(nd) && Solid(nd.regStart, nd.regLen) }

  /** Inode and header before and after one more region of rsz blocks. */
  predicate Grew(h: HBlock, nd: INode, h': HBlock, nd': INode, rsz: nat) {
    && FreeSlot(nd) && h.nextBlock + rsz <= h.nblocks && h' == Bump(h, rsz)
    && NodeBlocks(nd') == NodeBlocks(nd) + Run(h.nextBlock, rsz)
    && (FreeSlot(nd') <==> TwoFree(nd))
    && (SolidNode(nd') <==> SolidNode(nd) && 0 < rsz)
  }

  /** What the new region adds to a sound inode. */
  lemma RegionAdded(h: HBlock, nd: INode, s: nat, n: nat)
    requires NodeOk(nd) && nd.ftype.File? && s < 23 && FirstFree(nd.regStart, s) && 0 < h.nextBlock
    requires h.nextBlock + n <= h.nblocks
    ensures NodeOk(WithRegion(nd, s, h.nextBlock, n)) && Grew(h, nd, Bump(h, n), WithRegion(nd, s, h.nextBlock, n), n)
  {
    var nd' := WithRegion(nd, s, h.nextBlock, n);
    FlatAppend(nd.regStart, nd.regLen, s, 0, h.nextBlock, n);
    ZeroTailAppend(nd.regStart, s, h.nextBlock);
    assert nd'.regStart[s] != 0 && nd'.regLen[s] == n;
    if SolidNode(nd') {
      forall j | 0 <= j < 23 && nd.regStart[j] != 0 ensures 1 <= nd.regLen[j] {
        assert nd'.regStart[j] == nd.regStart[j] && nd'.regLen[j] == nd.regLen[j];
      }
    }
  }

  lemma CacheUpdate(h: HBlock, h': HBlock, ino: seq<INode>, i: nat, nd: INode, icindex: nat, icaddr: nat,
                    icache: seq<INode>)
    requires ICacheOk(h, ino, icindex, icaddr, icache) && ITab(h') == ITab(h)
    requires i < |ino| && icindex == i / 32 < |ITab(h)| && TableShape(nd)
    ensures ICacheOk(h', ino[i := nd], icindex, icaddr, icache[i % 32 := nd])
  {
    var icache', ino' := icache[i % 32 := nd], ino[i := nd];
    forall m | 0 <= m < |ino| && m / 32 == icindex ensures icache'[m % 32] == ino'[m] {
      if m % 32 == i % 32 { assert m == i; }
    }
  }

  lemma WriteGrow(h: HBlock, disk: seq<Block>, ino: seq<INode>, own: seq<Tag>, c: Caches, i: nat, e: seq<Byte>,
                  h': HBlock, disk': seq<Block>, icache': seq<INode>, s: nat, rsz: nat)
    requires WriteState(h, disk, ino, own, c, i, e)
    requires Grown(h, disk, c.icache, h', disk', icache', i % 32, s, rsz)
    ensures |icache'| == 32 && Grew(h, c.icache[i % 32], h', icache'[i % 32], rsz)
    ensures WriteState(h', disk', ino, own + Tags(File, i, |NodeBlocks(c.icache[i % 32])|, rsz),
                       c.(icache := icache'), i, e)
    ensures OthersSame(disk, disk', ino, i)
  {
    hide Flat, FlatFrom, ByteAt, NodeView, NodeOnDisk, ICacheOk, OwnsInodes;
    var nd, nd' := c.icache[i % 32], icache'[i % 32];
    assert NodeOk(nd) && Owns(own, i, nd) by {
      assert ino[i := nd][i] == nd;
    }
    RegionAdded(h, nd, s, rsz);
    GrowInode(h, disk, ino, own, i, nd, rsz, nd');
    HoldsGrow(disk, disk', own, i, NodeBlocks(nd), Run(h.nextBlock, rsz), e);
    CacheUpdate(h, h', ino[i := nd], i, nd', c.icindex, c.icaddr, c.icache);
    assert ino[i := nd][i := nd'] == ino[i := nd'];
  }

  /** Writing a chunk behind what the file holds so far. */
  lemma WritePut(h: HBlock, disk: seq<Block>, ino: seq<INode>, own: seq<Tag>, c: Caches, i: nat, e: seq<Byte>,
                 m: nat, off: nat, bytes: seq<Byte>, chunk: seq<Byte>)
    requires WriteState(h, disk, ino, own, c, i, e) && m < |NodeBlocks(c.icache[i % 32])|
    requires |e| == 4096 * m + off && off + |chunk| <= 4096 && |bytes| == 4096
    requires off == 0 || bytes == BytesOf(BlockAt(disk, NodeBlocks(c.icache[i % 32])[m]))
    ensures var a, b := NodeBlocks(c.icache[i % 32])[m], DataBlock(Splice(bytes, off, chunk));
            && a < |disk|
            && WriteState(h, disk[a := b], ino, own, c.(xcaddr := a, xcache := b), i, e + chunk)
            && OthersSame(disk, disk[a := b], ino, i)
  {
    hide EntriesOf, InodesOf, BytesOf;
    var nd := c.icache[i % 32];
    var a, b := NodeBlocks(nd)[m], DataBlock(Splice(bytes, off, chunk));
    PutBlock(h, disk, ino, own, i, nd, m, b);
    assert Owns(own, i, nd) by { assert ino[i := nd][i] == nd; }
    HoldsPut(disk, own, i, NodeBlocks(nd), e, m, off, bytes, chunk);
  }

  lemma ChunkPut(h: HBlock, disk0: seq<Block>, disk: seq<Block>, ino: seq<INode>, own: seq<Tag>, c: Caches, i: nat,
                 e: seq<Byte>, m: nat, off: nat, bytes: seq<Byte>, chunk: seq<Byte>)
    requires WriteState(h, disk, ino, own, c, i, e) && OthersSame(disk0, disk, ino, i)
    requires m < |NodeBlocks(c.icache[i % 32])|
    requires |e| == 4096 * m + off && off + |chunk| <= 4096 && |bytes| == 4096
    requires off == 0 || bytes == BytesOf(BlockAt(disk, NodeBlocks(c.icache[i % 32])[m]))
    ensures var a, b := NodeBlocks(c.icache[i % 32])[m], DataBlock(Splice(bytes, off, chunk));
            && a < |disk|
            && WriteState(h, disk[a := b], ino, own, c.(xcaddr := a, xcache := b), i, e + chunk)
            && OthersSame(disk0, disk[a := b], ino, i)
  {
    hide Consistent, OthersSame, NodeBlocks, ByteAt, EntriesOf, InodesOf, BytesOf;
    WritePut(h, disk, ino, own, c, i, e, m, off, bytes, chunk);
    OthersLater(disk0, disk, disk[NodeBlocks(c.icache[i % 32])[m] := DataBlock(Splice(bytes, off, chunk))], ino, i);
  }

  /** Byte `off` of block a belongs to nobody, or to file i behind the bytes e. */
  ghost predicate Aside(own: seq<Tag>, blocks: seq<nat>, e: seq<Byte>, a: nat, off: nat) {
    a >= |own| || exists k :: 0 <= k < |blocks| && blocks[k] == a && |e| <= 4096 * k + off
  }

  /** Writing there leaves the bytes where they are. */
  lemma AsidePut(h: HBlock, disk0: seq<Block>, disk: seq<Block>, ino: seq<INode>, own: seq<Tag>, c: Caches, i: nat,
                 e: seq<Byte>, a: nat, off: nat, bytes: seq<Byte>, chunk: seq<Byte>)
    requires WriteState(h, disk, ino, own, c, i, e) && OthersSame(disk0, disk, ino, i)
    requires a < |disk| && Aside(own, NodeBlocks(c.icache[i % 32]), e, a, off)
    requires off + |chunk| <= 4096 == |bytes| && (off == 0 || bytes == BytesOf(disk[a]))
    ensures var b := DataBlock(Splice(bytes, off, chunk));
            && WriteState(h, disk[a := b], ino, own, c.(xcaddr := a, xcache := b), i, e)
            && OthersSame(disk0, disk[a := b], ino, i)
  {
    hide ByteAt, NodeView, NodeOnDisk, NodeOk, ITab, OthersSame, BytesOf, Splice, EntriesOf, InodesOf;
    var nd, b := c.icache[i % 32], DataBlock(Splice(bytes, off, chunk));
    assert Owns(own, i, nd) by { assert ino[i := nd][i] == nd; }
    if a < |own| {
      var k :| 0 <= k < |NodeBlocks(nd)| && NodeBlocks(nd)[k] == a && |e| <= 4096 * k + off;
      PutBlock(h, disk, ino, own, i, nd, k, b);
    } else {
      PutFree(h, disk, ino, own, i, nd, a, b);
    }
    OthersLater(disk0, disk, disk[a := b], ino, i);
    HoldsAside(disk, own, i, NodeBlocks(nd), e, a, off, bytes, chunk);
  }

  /** The same for a block that may lie behind the end of the disk and then is not
      written. */
  lemma AsideStored(h: HBlock, disk0: seq<Block>, disk: seq<Block>, ino: seq<INode>, own: seq<Tag>, c: Caches, i: nat,
                    e: seq<Byte>, a: nat, off: nat, bytes: seq<Byte>, chunk: seq<Byte>)
    requires WriteState(h, disk, ino, own, c, i, e) && OthersSame(disk0, disk, ino, i)
    requires Aside(own, NodeBlocks(c.icache[i % 32]), e, a, off)
    requires off + |chunk| <= 4096 == |bytes| && (off == 0 || a >= |disk| || bytes == BytesOf(disk[a]))
    ensures var b := DataBlock(Splice(bytes, off, chunk));
            var disk' := if a < |disk| then disk[a := b] else disk;
            && WriteState(h, disk', ino, own, c.(xcaddr := a, xcache := b), i, e)
            && OthersSame(disk0, disk', ino, i)
  {
    hide Mid, Holds, ICacheOk, DCacheOk, Aside, OthersSame, NodeBlocks, BytesOf, Splice;
    if a < |disk| { AsidePut(h, disk0, disk, ino, own, c, i, e, a, off, bytes, chunk); }
  }

  /** Writing a block nobody owns. */
  lemma PutFree(h: HBlock, disk: seq<Block>, ino: seq<INode>, own: seq<Tag>, i: nat, nd: INode, a: nat, b: Block)
    requires Mid(h, disk, ino, own, i, nd) && |own| <= a < |disk|
    ensures Mid(h, disk[a := b], ino, own, i, nd) && OthersSame(disk, disk[a := b], ino, i)
  {
    hide NodeView, NodeOnDisk, NodeOk, ITab;
    var ino1 := ino[i := nd];
    SameInodes(h, disk, disk[a := b], own, |ino|);
    assert forall k :: 0 <= k < |ino| && k != i ==> ino1[k] == ino[k];
    SameViews(disk, disk[a := b], own, ino1);
    forall k | 0 <= k < |ino| && k != i ensures NodeView(disk[a := b], ino[k]) == NodeView(disk, ino[k]) {
      assert View(disk[a := b], ino1)[k] == NodeView(disk[a := b], ino[k]);
      assert View(disk, ino1)[k] == NodeView(disk, ino[k]);
    }
  }

  lemma HoldsAside(disk: seq<Block>, own: seq<Tag>, i: nat, blocks: seq<nat>, e: seq<Byte>, a: nat, off: nat,
                   bytes: seq<Byte>, chunk: seq<Byte>)
    requires Holds(disk, blocks, e) && OwnsBlocks(own, i, File, blocks) && |own| <= |disk|
    requires a < |disk| && Aside(own, blocks, e, a, off)
    requires off + |chunk| <= 4096 == |bytes| && (off == 0 || bytes == BytesOf(disk[a]))
    ensures Holds(disk[a := DataBlock(Splice(bytes, off, chunk))], blocks, e)
  {
    hide ByteAt, BytesOf, Splice;
    var b := DataBlock(Splice(bytes, off, chunk));
    forall p | 0 <= p < |e| ensures ByteAt(disk[a := b], blocks, p) == e[p] {
      assert ByteAt(disk, blocks, p) == e[p];
      if a < |own| {
        var k :| 0 <= k < |blocks| && blocks[k] == a && |e| <= 4096 * k + off;
        if p / 4096 == k {
          FrontByte(disk, blocks, k, off, bytes, chunk, p);
        } else {
          OtherByte(disk, own, i, blocks, k, b, p);
        }
      } else {
        FreeByte(disk, own, i, blocks, a, b, p);
      }
    }
  }

  /** A byte in front of the chunk, in the block that is written. */
  lemma FrontByte(disk: seq<Block>, blocks: seq<nat>, k: nat, off: nat, bytes: seq<Byte>, chunk: seq<Byte>, p: nat)
    requires k < |blocks| && blocks[k] < |disk| && p / 4096 == k && p < 4096 * k + off
    requires off + |chunk| <= 4096 == |bytes| && bytes == BytesOf(disk[blocks[k]])
    ensures ByteAt(disk[blocks[k] := DataBlock(Splice(bytes, off, chunk))], blocks, p) == ByteAt(disk, blocks, p)
  {
    hide BytesOf, Splice;
    DataBytes(Splice(bytes, off, chunk));
    assert p % 4096 == p - 4096 * k;
  }

  lemma FreeByte(disk: seq<Block>, own: seq<Tag>, i: nat, blocks: seq<nat>, a: nat, b: Block, p: nat)
    requires OwnsBlocks(own, i, File, blocks) && |own| <= a < |disk| && p / 4096 < |blocks|
    ensures ByteAt(disk[a := b], blocks, p) == ByteAt(disk, blocks, p)
  {
    assert 0 < blocks[p / 4096] < |own|;
  }

  /** The general purpose cache, if it is on a block that is free or a file's, holds
      that block; a free one may lie behind the end of the disk. */
  lemma CachedBlock(h: HBlock, disk: seq<Block>, ino: seq<INode>, own: seq<Tag>, c: Caches, i: nat, e: seq<Byte>,
                    a: nat)
    requires WriteState(h, disk, ino, own, c, i, e) && (a < |own| ==> own[a].FileTag?)
    ensures a < |own| ==> a < |disk|
    ensures a < |disk| && a == c.xcaddr ==> c.xcache == disk[a]
  {
    hide Holds, ICacheOk, DCacheOk, NodeOnDisk;
  }

  // ----------------------------------------------------------- saving inodes

  /** Saving the cached inode block makes the cached inodes the stored ones. */
  lemma SaveInodes(h: HBlock, disk: seq<Block>, ino: seq<INode>, own: seq<Tag>, i: nat, nd: INode,
                   icindex: nat, icaddr: nat, icache: seq<INode>)
    requires Mid(h, disk, ino, own, i, nd)
    requires icindex == i / 32 < |ITab(h)| && ICacheOk(h, ino[i := nd], icindex, icaddr, icache)
    ensures icaddr < |disk|
    ensures var disk' := disk[icaddr := InodeBlock(icache)];
            && Stored(h, disk', ino[i := nd])
            && View(disk', ino[i := nd]) == View(disk, ino[i := nd])
  {
    hide View, NodeOk, HeaderOk, NodeOnDisk, ITab, EntriesOf, InodesOf, BytesOf;
    var ino' := ino[i := nd];
    assert own[icaddr] == InodeTag(icindex);
    InodesInDisk(h, |disk|, own, icindex);
    SavedInodes(h, disk, own, icindex, icache);
    SameViews(disk, disk[icaddr := InodeBlock(icache)], own, ino');
  }

  lemma InodesInDisk(h: HBlock, n: nat, own: seq<Tag>, q: nat)
    requires HeaderOk(h, n) && |own| == h.nextBlock && OwnsInodes(own, ITab(h)) && q < |ITab(h)|
    ensures 0 < ITab(h)[q] < n
  {
  }

  /** New contents for one file leave the tree of names as it was. */
  lemma TreeFile(ino: seq<INode>, view: seq<Node>, live: set<nat>, pos: seq<nat>, i: nat, nd: INode, view': seq<Node>)
    requires Tree(ino, view, live, pos) && i < |ino| && view[i].FileNode?
    requires nd.iparent == ino[i].iparent && Sized(nd)
    requires |view'| == |view| && view'[i].FileNode?
    requires forall m :: 0 <= m < |view| && m != i ==> view'[m] == view[m]
    ensures Tree(ino[i := nd], view', live, pos)
  {
    var ino' := ino[i := nd];
    forall c | c in live ensures Linked(ino', view', live, pos, c) {
      assert Linked(ino, view, live, pos, c);
      if view[c].DirNode? {
        var es := view[c].entries;
        forall k | 2 <= k < |es| ensures ChildLink(ino', live, pos, c, k, es[k].inodeIndex) {
          assert ChildLink(ino, live, pos, c, k, es[k].inodeIndex);
        }
      }
    }
  }

  // --------------------------------------------------- what a write asks for

  /** Blocks needed to hold n bytes. */
  function Ceil(n: nat): nat { (n + 4095) / 4096 }

  /** The uint8_t region size fs2_write computes for `bytes` more bytes. */
  function RegionSize(bytes: nat): nat {
    var sz := (bytes / 4096) % 256;
    if bytes % 4096 != 0 then (sz + 1) % 256 else sz
  }

  /** No region the write asks for is truncated to 0 blocks, for a file of `cap`
      blocks: fewer than 256 blocks are missing, and a write of nothing starts
      inside the file's blocks. */
  predicate Fits(n: nat, cursor: nat, cap: nat) {
    Ceil(cursor + n) < cap + 256 && (n == 0 ==> cursor / 4096 < cap)
  }

  /** How many bytes of a write go into its first block. */
  function FirstPart(n: nat, cursor: nat): (w: nat)
    ensures w <= n && cursor % 4096 + w <= 4096
  {
    if n > 4096 - cursor % 4096 then 4096 - cursor % 4096 else n
  }

  /** Where the partial last block of a write begins (n if there is none). */
  function TailStart(cursor: nat, n: nat): (r: nat)
    ensures r <= n
  {
    FirstPart(n, cursor) + (n - FirstPart(n, cursor)) / 4096 * 4096
  }

  /** The bytes that reach the file when the write gets r bytes far: the partial
      last block is copied from the beginning of the caller's buffer. */
  function Landed(data: seq<Byte>, cursor: nat, r: nat): (l: seq<Byte>)
    requires r <= |data|
    ensures |l| == r
  {
    var t := TailStart(cursor, |data|);
    if r <= t then data[..r] else data[..t] + data[..r - t]
  }

  /** The one growth request of a write that fits, 0 if it makes none: the blocks
      missing, or the default region if only the partial last block is missing. */
  function Request(n: nat, cursor: nat, cap: nat, fregLen: nat): nat {
    if Ceil(cursor + n) <= cap then 0
    else if cursor / 4096 < cap && cursor + TailStart(cursor, n) == 4096 * cap then fregLen
    else Ceil(cursor + n) - cap
  }

  /** A write of n bytes at `cursor` is w bytes behind its start and has stored into
      block b: whole blocks follow, up to the partial last one. */
  predicate AtWhole(n: nat, cursor: nat, w: nat, b: nat) {
    && w <= n && w + (n - w) / 4096 * 4096 == TailStart(cursor, n)
    && (w == n || (0 < w && cursor + w == 4096 * (b + 1)))
  }

  lemma FirstPartIs(n: nat, cursor: nat)
    ensures AtWhole(n, cursor, FirstPart(n, cursor), cursor / 4096)
  {
  }

  /** The first request of a write. */
  lemma Request1(n: nat, cursor: nat, fregLen: nat)
    ensures FirstPart(n, cursor) == if n > 4096 - cursor % 4096 then 4096 - cursor % 4096 else n
    ensures AskedFor(n, cursor, 0, fregLen) == RegionSize(n) && (1 <= n <= 255 * 4096 ==> 0 < RegionSize(n))
  {
  }

  /** Counting through the whole blocks of a write, and behind them. */
  lemma WholeStep(n: nat, cursor: nat, w: nat, b: nat, fregLen: nat)
    requires AtWhole(n, cursor, w, b)
    ensures n - w >= 4096 ==>
              && 0 < w && cursor + w == 4096 * (b + 1) && AtWhole(n, cursor, w + 4096, b + 1)
              && AskedFor(n, cursor, w, fregLen) == RegionSize(n - w)
    ensures n - w < 4096 ==> w == TailStart(cursor, n)
    ensures n <= 255 * 4096 && w < n ==> 0 < RegionSize(n - w)
  {
  }

  /** The partial last block lies behind the whole ones, and a default region is
      asked for if it is not there. */
  lemma TailAsks(n: nat, cursor: nat, w: nat, b: nat, fregLen: nat)
    requires AtWhole(n, cursor, w, b) && w == TailStart(cursor, n) && w < n
    ensures 0 < w && cursor + w == 4096 * (b + 1) && n - w < 4096 && AskedFor(n, cursor, w, fregLen) == fregLen
  {
  }

  /** The volume can give inode nd what a write of n bytes will ask for. */
  predicate Room(h: HBlock, nd: INode, n: nat, cursor: nat) {
    var r := Request(n, cursor, |NodeBlocks(nd)|, h.fregLen);
    r == 0 || (FreeSlot(nd) && h.nextBlock + r <= h.nblocks)
  }

  /** A growth request made when block b is the first one missing. */
  lemma GrowthSize(n: nat, cursor: nat, w: nat, b: nat, cap: nat, fregLen: nat)
    requires w <= n && cursor + w >= 4096 * b && (w == 0 ==> b == cursor / 4096)
    requires w != 0 ==> cursor + w == 4096 * b && w < n
    ensures cursor <= 4096 * cap && b == cap && Fits(n, cursor, cap) ==>
              0 < RegionSize(n - w) == Ceil(cursor + n) - cap
    ensures cursor <= 4096 * cap && b == cap && Fits(n, cursor, cap) && w == 0 ==>
              Request(n, cursor, cap, fregLen) == RegionSize(n - w)
    ensures cursor / 4096 < cap && b == cap && w != 0 ==>
              Request(n, cursor, cap, fregLen) == if w == TailStart(cursor, n) then fregLen else Ceil(cursor + n) - cap
  {
    hide EntriesOf, InodesOf, BytesOf;
  }

  /** A write of n bytes at `cursor` began with inode nd0; now it is nd: the file
      has not grown, or it has, as far as the write will need. */
  predicate GrownFor(h0: HBlock, nd0: INode, h: HBlock, nd: INode, n: nat, cursor: nat) {
    && h.fregLen == h0.fregLen
    && ((nd == nd0 && h == h0)
        || (Room(h0, nd0, n, cursor) && Ceil(cursor + n) <= |NodeBlocks(nd)|))
  }

  /** The region size asked for when w bytes have been written: the whole rest,
      or the default one for the partial last block. */
  function AskedFor(n: nat, cursor: nat, w: nat, fregLen: nat): nat
    requires w <= n
  {
    if w != 0 && w == TailStart(cursor, n) then fregLen else RegionSize(n - w)
  }

  /** Block b, the next one a write needs, was there or has been allocated. */
  lemma GrownStep(h0: HBlock, nd0: INode, h: HBlock, nd: INode, h': HBlock, nd': INode, n: nat, cursor: nat, w: nat,
                  b: nat)
    requires GrownFor(h0, nd0, h, nd, n, cursor) && Fits(n, cursor, |NodeBlocks(nd)|) && 1 <= h0.fregLen
    requires w <= n && cursor <= 4096 * |NodeBlocks(nd0)|
    requires if w == 0 then b == cursor / 4096 else cursor + w == 4096 * b && w < n
    requires b < |NodeBlocks(nd)| ==> h' == h && nd' == nd
    requires b >= |NodeBlocks(nd)| ==>
               var rsz := AskedFor(n, cursor, w, h.fregLen);
               && b == |NodeBlocks(nd)| && |NodeBlocks(nd')| == b + rsz && FreeSlot(nd)
               && h.nextBlock + rsz <= h.nblocks
               && h'.fregLen == h.fregLen
    ensures GrownFor(h0, nd0, h', nd', n, cursor) && Fits(n, cursor, |NodeBlocks(nd')|) && b < |NodeBlocks(nd')|
  {
    hide NodeBlocks;
    GrowthSize(n, cursor, w, b, |NodeBlocks(nd0)|, h0.fregLen);
    TailLength(n, cursor, w);
  }

  /** Block b, the next one a write needs, is at most one too far, and then the
      write asks for blocks. */
  lemma NextBlockFits(n: nat, cursor: nat, w: nat, b: nat, cap: nat, fregLen: nat)
    requires w <= n && Fits(n, cursor, cap) && cursor + w <= 4096 * cap && 1 <= fregLen
    requires if w == 0 then b == cursor / 4096 else cursor + w == 4096 * b && w < n
    ensures b <= cap && (b == cap ==> 0 < AskedFor(n, cursor, w, fregLen))
  {
    GrowthSize(n, cursor, w, b, cap, fregLen);
  }

  /** Block b was not there and could not be allocated. */
  lemma RefusedStep(h0: HBlock, nd0: INode, h: HBlock, nd: INode, n: nat, cursor: nat, w: nat, b: nat)
    requires GrownFor(h0, nd0, h, nd, n, cursor) && Fits(n, cursor, |NodeBlocks(nd)|) && 1 <= h0.fregLen
    requires w <= n && cursor <= 4096 * |NodeBlocks(nd0)| && b == |NodeBlocks(nd)|
    requires if w == 0 then b == cursor / 4096 else cursor + w == 4096 * b && w < n
    requires !(FreeSlot(nd) && h.nextBlock + AskedFor(n, cursor, w, h.fregLen) <= h.nblocks)
    ensures !Room(h0, nd0, n, cursor)
    ensures cursor + w <= 4096 * |NodeBlocks(nd)| ==> cursor + w == 4096 * |NodeBlocks(nd0)|
  {
    hide NodeBlocks;
    GrowthSize(n, cursor, w, b, |NodeBlocks(nd0)|, h0.fregLen);
    TailLength(n, cursor, w);
  }

  // ---------------------------------------------- writes that ask for no blocks

  /** What the first request of a write that does not fit is for: the missing
      blocks modulo 256, and nothing for a write of nothing. */
  function FirstAsk(n: nat, cursor: nat, cap: nat): nat {
    if n == 0 then 0 else (Ceil(cursor + n) - cap) % 256
  }

  /** The first request asks for blocks, and they are given. */
  predicate FirstGiven(h: HBlock, nd: INode, n: nat, cursor: nat) {
    var r := FirstAsk(n, cursor, |NodeBlocks(nd)|);
    0 < r && FreeSlot(nd) && h.nextBlock + r <= h.nblocks
  }

  /** The write comes to be given a region of no blocks: it does not fit, and there
      is a slot for that region behind what its first request is given. */
  predicate GoesHollow(h: HBlock, nd: INode, n: nat, cursor: nat) {
    var cap := |NodeBlocks(nd)|;
    && !Fits(n, cursor, cap)
    && if FirstAsk(n, cursor, cap) == 0 then FreeSlot(nd) else FirstGiven(h, nd, n, cursor) && TwoFree(nd)
  }

  /** How many bytes a write that does not fit stores up to then: as many as the
      file's blocks, and those first given, hold from the cursor on. */
  function Reach(h: HBlock, nd: INode, n: nat, cursor: nat): (w: nat)
    requires cursor <= 4096 * |NodeBlocks(nd)|
  {
    var cap := |NodeBlocks(nd)|;
    4096 * (if FirstGiven(h, nd, n, cursor) then cap + FirstAsk(n, cursor, cap) else cap) - cursor
  }

  /** A write that does not fit began with inode nd0; now it is nd, and no region
      of no blocks has been asked for. */
  predicate OverTrack(h0: HBlock, nd0: INode, h: HBlock, nd: INode, n: nat, cursor: nat) {
    && !Fits(n, cursor, |NodeBlocks(nd0)|)
    && if nd == nd0 && h == h0 then true
       else FirstGiven(h0, nd0, n, cursor) && Grew(h0, nd0, h, nd, FirstAsk(n, cursor, |NodeBlocks(nd0)|))
  }

  /** The bytes that are stored are not more than the write has. */
  lemma ReachBounded(h: HBlock, nd: INode, n: nat, cursor: nat)
    requires cursor <= 4096 * |NodeBlocks(nd)| && !Fits(n, cursor, |NodeBlocks(nd)|)
    ensures Reach(h, nd, n, cursor) <= n && (n <= 255 * 4096 ==> n == 0) && (n == 0 ==> Reach(h, nd, n, cursor) == 0)
    ensures 0 < n ==> cursor + n > 4096 * (|NodeBlocks(nd)| + 255) && Reach(h, nd, n, cursor) + 4096 <= n
    ensures Reach(h, nd, n, cursor) <= TailStart(cursor, n)
  {
    hide NodeBlocks;
  }

  /** The next missing block b of a write that does not fit, w bytes into it. */
  lemma OverAsk(h0: HBlock, nd0: INode, h: HBlock, nd: INode, n: nat, cursor: nat, w: nat, b: nat)
    requires OverTrack(h0, nd0, h, nd, n, cursor) && cursor <= 4096 * |NodeBlocks(nd0)| && w <= n
    requires cursor + w <= 4096 * |NodeBlocks(nd)|
    requires if w == 0 then b == cursor / 4096 else cursor + w == 4096 * b && w < n
    ensures b <= |NodeBlocks(nd)|
    ensures b == |NodeBlocks(nd)| ==>
              && cursor + w == 4096 * b
              && AskedFor(n, cursor, w, h.fregLen)
                 == if nd == nd0 && h == h0 then FirstAsk(n, cursor, |NodeBlocks(nd0)|) else 0
  {
    hide NodeBlocks, TailStart, RegionSize, Ceil;
    if b == |NodeBlocks(nd)| { OverSizes(n, cursor, w, |NodeBlocks(nd0)|, b); }
  }

  lemma OverSizes(n: nat, cursor: nat, w: nat, cap0: nat, cap: nat)
    requires !Fits(n, cursor, cap0) && cursor <= 4096 * cap0 && w <= n && cursor + w == 4096 * cap && (w != 0 ==> w < n)
    requires cap == cap0 || (n != 0 && cap == cap0 + FirstAsk(n, cursor, cap0))
    ensures w != 0 ==> w != TailStart(cursor, n)
    ensures RegionSize(n - w) == if cap == cap0 then FirstAsk(n, cursor, cap0) else 0
  {
    hide TailStart, RegionSize, Ceil;
    TailLength(n, cursor, w);
    CeilIs(n - w);
    if n != 0 {
      CeilLess(cursor + n, cap);
      var m := Ceil(cursor + n) - cap0;
      assert cap == cap0 || (m - m % 256) % 256 == 0;
      CeilIs(cursor + n);
    }
  }

  /** The region size asked for is the number of blocks modulo 256. */
  lemma CeilIs(bytes: nat)
    ensures RegionSize(bytes) == Ceil(bytes) % 256
    ensures 4096 * Ceil(bytes) < bytes + 4096
  {
    CeilSplit(bytes);
    var q, c := bytes / 4096, Ceil(bytes);
    hide Ceil;
    assert c == if bytes % 4096 != 0 then q + 1 else q;
  }

  lemma CeilSplit(bytes: nat)
    ensures Ceil(bytes) == if bytes % 4096 != 0 then bytes / 4096 + 1 else bytes / 4096
    ensures 4096 * Ceil(bytes) < bytes + 4096
  {
  }

  lemma CeilLess(bytes: nat, sz: nat)
    requires 4096 * sz <= bytes
    ensures Ceil(bytes - 4096 * sz) == Ceil(bytes) - sz
  {
  }

  /** The step of such a write to its next missing block: it is given what it asks
      for, be it nothing, or refused. */
  lemma OverStep(h0: HBlock, nd0: INode, h: HBlock, nd: INode, h': HBlock, nd': INode, n: nat, cursor: nat, w: nat,
                 b: nat)
    requires OverTrack(h0, nd0, h, nd, n, cursor) && cursor <= 4096 * |NodeBlocks(nd0)| && w <= n
    requires cursor + w <= 4096 * |NodeBlocks(nd)| && b == |NodeBlocks(nd)| && h.nextBlock <= h.nblocks
    requires if w == 0 then b == cursor / 4096 else cursor + w == 4096 * b && w < n
    ensures var rsz := AskedFor(n, cursor, w, h.fregLen);
            && (FreeSlot(nd) && h.nextBlock + rsz <= h.nblocks && Grew(h, nd, h', nd', rsz) ==>
                  if rsz > 0 then OverTrack(h0, nd0, h', nd', n, cursor)
                  else GoesHollow(h0, nd0, n, cursor) && w == Reach(h0, nd0, n, cursor) && !SolidNode(nd'))
            && (!(FreeSlot(nd) && h.nextBlock + rsz <= h.nblocks) ==>
                  !GoesHollow(h0, nd0, n, cursor) && w == Reach(h0, nd0, n, cursor))
  {
    hide NodeBlocks, Fits, AskedFor, FirstAsk, SolidNode;
    OverAsk(h0, nd0, h, nd, n, cursor, w, b);
  }

  // ------------------------------------------------------- a write under way

  /** A write that began with header h0 and inode nd0 has come to h and nd, without
      a region of no blocks. */
  predicate OnTrack(h0: HBlock, nd0: INode, h: HBlock, nd: INode, n: nat, cursor: nat) {
    if Fits(n, cursor, |NodeBlocks(nd0)|)
    then GrownFor(h0, nd0, h, nd, n, cursor) && Fits(n, cursor, |NodeBlocks(nd)|)
    else OverTrack(h0, nd0, h, nd, n, cursor)
  }

  /** Block b is at most one too far; no blocks are then asked for only by a write
      that does not fit. */
  lemma TrackAsk(h0: HBlock, nd0: INode, h: HBlock, nd: INode, n: nat, cursor: nat, w: nat, b: nat)
    requires OnTrack(h0, nd0, h, nd, n, cursor) && cursor <= 4096 * |NodeBlocks(nd0)| && w <= n && 1 <= h0.fregLen
    requires cursor + w <= 4096 * |NodeBlocks(nd)| && h.nextBlock <= h.nblocks
    requires if w == 0 then b == cursor / 4096 else cursor + w == 4096 * b && w < n
    ensures b <= |NodeBlocks(nd)| && h.fregLen == h0.fregLen
    ensures b == |NodeBlocks(nd)| ==> cursor + w == 4096 * b
    ensures b == |NodeBlocks(nd)| && AskedFor(n, cursor, w, h.fregLen) == 0 && FreeSlot(nd) ==>
              GoesHollow(h0, nd0, n, cursor)
  {
    hide NodeBlocks, Fits, AskedFor, FirstAsk, Room, SolidNode, Reach;
    if Fits(n, cursor, |NodeBlocks(nd0)|) {
      NextBlockFits(n, cursor, w, b, |NodeBlocks(nd)|, h.fregLen);
    } else {
      OverAsk(h0, nd0, h, nd, n, cursor, w, b);
      if b == |NodeBlocks(nd)| { OverStep(h0, nd0, h, nd, h, nd, n, cursor, w, b); }
    }
  }

  lemma TrackStep(h0: HBlock, nd0: INode, h: HBlock, nd: INode, h': HBlock, nd': INode, n: nat, cursor: nat, w: nat,
                  b: nat)
    requires OnTrack(h0, nd0, h, nd, n, cursor) && cursor <= 4096 * |NodeBlocks(nd0)| && w <= n && 1 <= h0.fregLen
    requires cursor + w <= 4096 * |NodeBlocks(nd)| && h.nextBlock <= h.nblocks
    requires if w == 0 then b == cursor / 4096 else cursor + w == 4096 * b && w < n
    requires if b < |NodeBlocks(nd)| then h' == h && nd' == nd
             else Grew(h, nd, h', nd', AskedFor(n, cursor, w, h.fregLen))
    ensures if b < |NodeBlocks(nd)| || AskedFor(n, cursor, w, h.fregLen) > 0
            then OnTrack(h0, nd0, h', nd', n, cursor) && b < |NodeBlocks(nd')|
            else GoesHollow(h0, nd0, n, cursor) && w == Reach(h0, nd0, n, cursor) && !SolidNode(nd')
  {
    hide NodeBlocks, Fits, AskedFor, FirstAsk, Room, SolidNode, Reach;
    TrackAsk(h0, nd0, h, nd, n, cursor, w, b);
    if Fits(n, cursor, |NodeBlocks(nd0)|) {
      NextBlockFits(n, cursor, w, b, |NodeBlocks(nd)|, h.fregLen);
      GrownStep(h0, nd0, h, nd, h', nd', n, cursor, w, b);
    } else if b == |NodeBlocks(nd)| {
      OverStep(h0, nd0, h, nd, h', nd', n, cursor, w, b);
    }
  }

  lemma TrackRefused(h0: HBlock, nd0: INode, h: HBlock, nd: INode, n: nat, cursor: nat, w: nat, b: nat)
    requires OnTrack(h0, nd0, h, nd, n, cursor) && cursor <= 4096 * |NodeBlocks(nd0)| && w <= n && 1 <= h0.fregLen
    requires cursor + w <= 4096 * |NodeBlocks(nd)| && b == |NodeBlocks(nd)| && h.nextBlock <= h.nblocks
    requires if w == 0 then b == cursor / 4096 else cursor + w == 4096 * b && w < n
    requires !(FreeSlot(nd) && h.nextBlock + AskedFor(n, cursor, w, h.fregLen) <= h.nblocks)
    ensures Refused(h0, nd0, n, cursor, w)
  {
    hide NodeBlocks, Fits, AskedFor, FirstAsk, Room, SolidNode, Reach;
    if Fits(n, cursor, |NodeBlocks(nd0)|) {
      RefusedStep(h0, nd0, h, nd, n, cursor, w, b);
    } else {
      OverStep(h0, nd0, h, nd, h, nd, n, cursor, w, b);
    }
  }

  /** A write ends w bytes far, for want of blocks or of a slot. */
  predicate Refused(h0: HBlock, nd0: INode, n: nat, cursor: nat, w: nat) {
    && cursor <= 4096 * |NodeBlocks(nd0)| && !GoesHollow(h0, nd0, n, cursor)
    && if Fits(n, cursor, |NodeBlocks(nd0)|) then !Room(h0, nd0, n, cursor) && cursor + w == 4096 * |NodeBlocks(nd0)|
       else w == Reach(h0, nd0, n, cursor)
  }

  /** A write that has stored all its bytes in the file's blocks fits and had room. */
  lemma TrackDone(h0: HBlock, nd0: INode, h: HBlock, nd: INode, n: nat, cursor: nat)
    requires OnTrack(h0, nd0, h, nd, n, cursor) && cursor <= 4096 * |NodeBlocks(nd0)|
    requires cursor + n <= 4096 * |NodeBlocks(nd)| && (n == 0 ==> cursor / 4096 < |NodeBlocks(nd)|)
    ensures Fits(n, cursor, |NodeBlocks(nd0)|) && Room(h0, nd0, n, cursor)
  {
    hide NodeBlocks;
    if Fits(n, cursor, |NodeBlocks(nd0)|) { DoneStep(h0, nd0, h, nd, n, cursor); }
  }

  lemma FirstOnTrack(h: HBlock, nd: INode, n: nat, cursor: nat)
    ensures OnTrack(h, nd, h, nd, n, cursor)
  {
  }

  /** A write that stops without a region of no blocks: how far it comes. */
  lemma NotHollow(h0: HBlock, nd0: INode, h: HBlock, nd: INode, n: nat, cursor: nat, w: nat)
    requires cursor <= 4096 * |NodeBlocks(nd0)| && w <= n
    requires if w == n then OnTrack(h0, nd0, h, nd, n, cursor) && cursor + n <= 4096 * |NodeBlocks(nd)|
                            && (n == 0 ==> cursor / 4096 < |NodeBlocks(nd)|)
             else Refused(h0, nd0, n, cursor, w)
    ensures !GoesHollow(h0, nd0, n, cursor)
    ensures w == n <==> Fits(n, cursor, |NodeBlocks(nd0)|) && Room(h0, nd0, n, cursor)
    ensures w < n ==>
              if Fits(n, cursor, |NodeBlocks(nd0)|) then cursor + w == 4096 * |NodeBlocks(nd0)|
              else w == Reach(h0, nd0, n, cursor)
  {
    hide NodeBlocks, Fits, Room, OnTrack, Reach;
    if w == n { TrackDone(h0, nd0, h, nd, n, cursor); }
  }

  lemma TailLength(n: nat, cursor: nat, w: nat)
    requires w <= n
    ensures w == TailStart(cursor, n) && w < n && w != 0 ==> cursor % 4096 + n > 4096 && n - w < 4096
    ensures cursor + n <= 4096 * Ceil(cursor + n)
  {
  }

  /** A write that reached its end had room. */
  lemma DoneStep(h0: HBlock, nd0: INode, h: HBlock, nd: INode, n: nat, cursor: nat)
    requires GrownFor(h0, nd0, h, nd, n, cursor) && cursor + n <= 4096 * |NodeBlocks(nd)|
    ensures Room(h0, nd0, n, cursor)
  {
    hide NodeBlocks;
  }

  lemma LandedIs(head: seq<Byte>, data: seq<Byte>, cursor: nat, w: nat)
    requires w <= TailStart(cursor, |data|)
    ensures Landed(data, cursor, w) == data[..w]
    ensures w == TailStart(cursor, |data|) && |data| - w <= |data| ==>
              head + data[..w] + data[..|data| - w] == head + Landed(data, cursor, |data|)
  {
    if w == TailStart(cursor, |data|) {
      assert Landed(data, cursor, |data|) == data[..w] + data[..|data| - w];
    }
  }

  lemma AppendChunk(head: seq<Byte>, data: seq<Byte>, w: nat, w': nat)
    requires w <= w' <= |data|
    ensures head + data[..w] + data[w..w'] == head + data[..w']
  {
    assert data[..w] + data[w..w'] == data[..w'];
  }

  lemma WriteStart(h: HBlock, disk: seq<Block>, ino: seq<INode>, own: seq<Tag>, live: set<nat>, pos: seq<nat>,
                   c: Caches, i: nat, e: seq<Byte>)
    requires Consistent(h, disk, ino, own, live, pos) && i in live && i < |ino| && ino[i].ftype.File?
    requires |c.icache| == 32 && c.icache[i % 32] == ino[i] && c.icindex == i / 32 < |ITab(h)|
    requires ICacheOk(h, ino, c.icindex, c.icaddr, c.icache)
    requires DCacheOk(disk, own, c.dcaddr, c.dcache) && XCacheOk(disk, own, c.xcaddr, c.xcache)
    requires e <= View(disk, ino)[i].bytes
    ensures WriteState(h, disk, ino, own, c, i, e)
    ensures OthersSame(disk, disk, ino, i) && Tree(ino, View(disk, ino), live, pos)
    ensures TableShape(ino[i]) && 0 < h.nextBlock && 0 < |disk| && 1 <= h.fregLen
    ensures |e| <= 4096 * |NodeBlocks(ino[i])|
  {
    hide EntriesOf, InodesOf, BytesOf;
    assert Linked(ino, View(disk, ino), live, pos, i);
    assert ino[i := ino[i]] == ino;
  }

  lemma WriteUndone(h: HBlock, disk: seq<Block>, ino: seq<INode>, own: seq<Tag>, c: Caches, i: nat, e: seq<Byte>)
    requires WriteState(h, disk, ino, own, c, i, e) && c.icache[i % 32] == ino[i]
    ensures ICacheOk(h, ino, c.icindex, c.icaddr, c.icache)
    ensures DCacheOk(disk, own, c.dcaddr, c.dcache) && XCacheOk(disk, own, c.xcaddr, c.xcache)
  {
    hide Mid, ICacheOk, DCacheOk, XCacheOk, Holds;
    assert ino[i := ino[i]] == ino;
  }

  /** The end of a write: the new end of file goes into the saved inode.  The file
      begins with e, and shows as many bytes as it has up to its new end. */
  lemma WriteFinish(h: HBlock, disk0: seq<Block>, disk: seq<Block>, ino: seq<INode>, own: seq<Tag>,
                    live: set<nat>, pos: seq<nat>, c: Caches, i: nat, e: seq<Byte>, eof: nat, icache': seq<INode>)
    requires WriteState(h, disk, ino, own, c, i, e) && |e| <= eof
    requires Tree(ino, View(disk0, ino), live, pos) && OthersSame(disk0, disk, ino, i)
    requires icache' == c.icache[i % 32 := c.icache[i % 32].(eof := eof)]
    ensures c.icaddr < |disk| && i < |ino|
    ensures var disk', ino' := disk[c.icaddr := InodeBlock(icache')], ino[i := icache'[i % 32]];
            && Consistent(h, disk', ino', own, live, pos)
            && ICacheOk(h, ino', c.icindex, c.icaddr, icache')
            && DCacheOk(disk', own, c.dcaddr, c.dcache) && XCacheOk(disk', own, c.xcaddr, c.xcache)
            && NewFile(View(disk0, ino), View(disk', ino'), i, e, Shown(ino'[i]))
  {
    hide Tree, HeaderOk, NodeOnDisk, ITab, View, NodeShape, Stored, NewFile, EntriesOf, InodesOf, BytesOf;
    var nd, nd' := c.icache[i % 32], icache'[i % 32];
    var ino' := ino[i := nd'];
    ResizedMid(h, disk, ino, own, i, nd, eof);
    CacheUpdate(h, h, ino[i := nd], i, nd', c.icindex, c.icaddr, c.icache);
    assert ino[i := nd][i := nd'] == ino';
    SaveInodes(h, disk, ino, own, i, nd', c.icindex, c.icaddr, icache');
    FileChanged(disk0, disk, ino, i, nd', e);
    TreeFile(ino, View(disk0, ino), live, pos, i, nd', View(disk, ino'));
    assert own[c.icaddr] == InodeTag(c.icindex);
  }

  /** Only file i has changed: it begins with e, and has n bytes. */
  ghost predicate NewFile(view: seq<Node>, view': seq<Node>, i: nat, e: seq<Byte>, n: nat) {
    && i < |view| == |view'| && view[i].FileNode? && view'[i].FileNode? && view' == view[i := view'[i]]
    && e <= view'[i].bytes && |view'[i].bytes| == n
  }

  lemma ResizedMid(h: HBlock, disk: seq<Block>, ino: seq<INode>, own: seq<Tag>, i: nat, nd: INode, eof: nat)
    requires Mid(h, disk, ino, own, i, nd) && nd.ftype.File?
    ensures Mid(h, disk, ino, own, i, nd.(eof := eof)) && NodeBlocks(nd.(eof := eof)) == NodeBlocks(nd)
  {
    hide HeaderOk, Stored, Flat, OwnsInodes;
    var ino1, ino' := ino[i := nd], ino[i := nd.(eof := eof)];
    forall k | 0 <= k < |ino| ensures Owns(own, k, ino'[k]) && NodeOk(ino'[k]) {
      assert Owns(own, k, ino1[k]) && NodeOk(ino1[k]);
    }
  }

  lemma FileChanged(disk0: seq<Block>, disk: seq<Block>, ino: seq<INode>, i: nat, nd: INode, e: seq<Byte>)
    requires i < |ino| && OthersSame(disk0, disk, ino, i) && ino[i].ftype.File? && nd.ftype.File?
    requires |e| <= nd.eof && Holds(disk, NodeBlocks(nd), e)
    ensures NewFile(View(disk0, ino), View(disk, ino[i := nd]), i, e, Shown(nd)) && Sized(nd)
    ensures View(disk0, ino)[i].FileNode? && View(disk, ino[i := nd])[i].FileNode?
    ensures forall m :: 0 <= m < |ino| && m != i ==> View(disk, ino[i := nd])[m] == View(disk0, ino)[m]
  {
    hide NodeBlocks, ByteAt;
    var view, view' := View(disk0, ino), View(disk, ino[i := nd]);
    assert e <= view'[i].bytes;
    assert view' == view[i := view'[i]];
  }
}
