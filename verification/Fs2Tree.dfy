/** The tree of names: what creating and removing entries does to it, and to the
    resolution of paths. */
module Fs2Tree {
  import opened Common
  import opened Fs2Layout
  import opened Fs2State
  import opened Fs2Path
  import opened Fs2Update
  import opened Fs2Dirs

  /** A new inode that is entered in a reachable directory joins the tree. */
  lemma TreeLink(ino: seq<INode>, view: seq<Node>, live: set<nat>, pos: seq<nat>, ino': seq<INode>, view': seq<Node>,
                 p: nat, e: DirEntry, ft: FType, dregLen: nat, r: nat)
    requires Tree(ino, view, live, pos) && p in live
    requires |ino'| == |view'| == |ino| + 1 && e.inodeIndex == |ino|
    requires Linkage(ino, ino'[..|ino|], view, view'[..|ino|], p, e, dregLen, r)
    requires ino'[|ino|].iparent == p && Sized(ino'[|ino|]) && NewView(view'[|ino|], ft, |ino|, p, dregLen)
    ensures Tree(ino', view', live + {|ino|}, pos + [|view[p].entries|])
  {
    var i, live', pos' := |ino|, live + {|ino|}, pos + [|view[p].entries|];
    assert Linked(ino, view, live, pos, 0) && Linked(ino, view, live, pos, p);
    forall c | 0 <= c < i ensures ino'[c].iparent == ino[c].iparent && (view'[c].DirNode? <==> view[c].DirNode?) {
      assert ino'[c] == ino'[..i][c] && view'[c] == view'[..i][c];
    }
    forall c | c in live' ensures Linked(ino', view', live', pos', c) {
      assert c < i ==> ino'[c] == ino'[..i][c] && view'[c] == view'[..i][c];
      if c < i {
        assert Linked(ino, view, live, pos, c);
        var q := ino[c].iparent;
        assert view'[q] == view'[..i][q];
        if view[c].DirNode? {
          var es := view'[c].entries;
          forall k | 2 <= k < |es| ensures ChildLink(ino', live', pos', c, k, es[k].inodeIndex) {
            if k < |view[c].entries| { assert ChildLink(ino, live, pos, c, k, view[c].entries[k].inodeIndex); }
          }
        }
      } else {
        assert view'[p] == view'[..i][p];
      }
    }
  }

  /** A new inode whose entry found no room is in the table but not in the tree. */
  lemma TreeSpare(ino: seq<INode>, view: seq<Node>, live: set<nat>, pos: seq<nat>, ino': seq<INode>, view': seq<Node>)
    requires Tree(ino, view, live, pos)
    requires |ino'| == |view'| == |ino| + 1 && ino'[..|ino|] == ino && view'[..|ino|] == view
    ensures Tree(ino', view', live, pos + [0])
  {
    forall c | 0 <= c < |ino| ensures ino'[c] == ino[c] && view'[c] == view[c] {
      assert ino'[c] == ino'[..|ino|][c] && view'[c] == view'[..|ino|][c];
    }
    forall c | c in live ensures Linked(ino', view', live, pos + [0], c) {
      assert Linked(ino, view, live, pos, c);
      if view[c].DirNode? {
        var es := view[c].entries;
        forall k | 2 <= k < |es| ensures ChildLink(ino', live, pos + [0], c, k, es[k].inodeIndex) {
          assert ChildLink(ino, live, pos, c, k, es[k].inodeIndex);
        }
      }
    }
  }

  /** The root directory alone is a tree. */
  lemma TreeRoot(ino: seq<INode>, view: seq<Node>, dregLen: nat)
    requires |ino| == |view| == 1 && ino[0].iparent == 0 && Sized(ino[0]) && NewView(view[0], Dir, 0, 0, dregLen)
    ensures Tree(ino, view, {0}, [0])
  {
    forall c | c in {0} ensures Linked(ino, view, {0}, [0], c) {
    }
  }

  /** fs2_unlink finds the one link of an empty directory or a file in its parent. */
  lemma LinkAt(ino: seq<INode>, view: seq<Node>, live: set<nat>, pos: seq<nat>, p: nat, x: nat)
    requires Tree(ino, view, live, pos) && p in live && x in live && x != 0 && x != p && ino[x].iparent == p
    requires view[x].DirNode? ==> |view[x].entries| <= 2
    ensures p < |view| && view[p].DirNode? && 2 <= pos[x] < |view[p].entries|
    ensures forall k :: 0 <= k < |view[p].entries| ==> (view[p].entries[k].inodeIndex == x <==> k == pos[x])
    ensures LinkOf(view[p].entries, x, 0) == pos[x]
  {
    assert Linked(ino, view, live, pos, x) && Linked(ino, view, live, pos, p);
    var es := view[p].entries;
    forall k | 0 <= k < |es| && es[k].inodeIndex == x ensures k == pos[x] {
      if k >= 2 { assert ChildLink(ino, live, pos, p, k, es[k].inodeIndex); }
    }
    assert es[LinkOf(es, x, 0)].inodeIndex == x;
  }

  lemma TheLink(ino: seq<INode>, view: seq<Node>, live: set<nat>, pos: seq<nat>, p: nat, x: nat, k: nat)
    requires Tree(ino, view, live, pos) && p in live && x in live && x != 0 && x != p && ino[x].iparent == p
    requires view[x].DirNode? ==> |view[x].entries| <= 2
    requires view[p].DirNode? && SeenLink(view[p].entries, x, k)
    ensures k == pos[x] == LinkOf(view[p].entries, x, 0) && InReach(k)
  {
    LinkAt(ino, view, live, pos, p, x);
  }

  /** The index of each link once entry k of directory es is overwritten with the last. */
  function Moved(pos: seq<nat>, es: seq<DirEntry>, k: nat): seq<nat>
    requires k < |es|
  {
    var c := es[|es| - 1].inodeIndex;
    if k == |es| - 1 || c >= |pos| then pos else pos[c := k]
  }

  /** Taking a leaf out of its parent, and moving an entry for the last one's inode
      into the gap, leaves a tree without that leaf. */
  lemma TreeRemove(ino: seq<INode>, view: seq<Node>, live: set<nat>, pos: seq<nat>, ino': seq<INode>, view': seq<Node>,
                   p: nat, x: nat, e: DirEntry)
    requires Tree(ino, view, live, pos) && p in live && x in live && x != 0 && x != p && ino[x].iparent == p
    requires view[x].DirNode? ==> |view[x].entries| <= 2
    requires |ino'| == |view'| == |ino|
    requires forall c :: 0 <= c < |ino| && c != p && c != x ==> ino'[c] == ino[c] && view'[c] == view[c]
    requires ino'[p].iparent == ino[p].iparent && Sized(ino'[p])
    requires view[p].DirNode? && pos[x] < |view[p].entries|
    requires var es := view[p].entries;
             && e.inodeIndex == es[|es| - 1].inodeIndex
             && view'[p] == DirNode(Dropped(es, pos[x], e), view[p].blocks)
    ensures Tree(ino', view', live - {x}, Moved(pos, view[p].entries, pos[x]))
  {
    LinkAt(ino, view, live, pos, p, x);
    var live', pos', es := live - {x}, Moved(pos, view[p].entries, pos[x]), view[p].entries;
    assert Linked(ino, view, live, pos, p) && Linked(ino, view, live, pos, 0);
    assert pos[x] != |es| - 1 ==> ChildLink(ino, live, pos, p, |es| - 1, es[|es| - 1].inodeIndex);
    forall c | c in live' ensures Linked(ino', view', live', pos', c) {
      RemoveLinked(ino, view, live, pos, ino', view', p, x, e, c);
    }
  }

  lemma RemoveLinked(ino: seq<INode>, view: seq<Node>, live: set<nat>, pos: seq<nat>, ino': seq<INode>,
                     view': seq<Node>, p: nat, x: nat, e: DirEntry, c: nat)
    requires Tree(ino, view, live, pos) && p in live && x in live && x != 0 && x != p && ino[x].iparent == p
    requires view[x].DirNode? ==> |view[x].entries| <= 2
    requires |ino'| == |view'| == |ino|
    requires forall c :: 0 <= c < |ino| && c != p && c != x ==> ino'[c] == ino[c] && view'[c] == view[c]
    requires ino'[p].iparent == ino[p].iparent && Sized(ino'[p])
    requires view[p].DirNode? && 2 <= pos[x] < |view[p].entries| && view[p].entries[pos[x]].inodeIndex == x
    requires var es := view[p].entries;
             && e.inodeIndex == es[|es| - 1].inodeIndex
             && view'[p] == DirNode(Dropped(es, pos[x], e), view[p].blocks)
    requires c in live - {x} && c < |ino|
    ensures Linked(ino', view', live - {x}, Moved(pos, view[p].entries, pos[x]), c)
  {
    hide Dropped, EntriesOf, InodesOf, BytesOf;
    var live', pos', es := live - {x}, Moved(pos, view[p].entries, pos[x]), view[p].entries;
    var last := |es| - 1;
    assert Linked(ino, view, live, pos, c) && Linked(ino, view, live, pos, p) && Linked(ino, view, live, pos, x);
    if view[c].DirNode? && c != p {
      var es' := view[c].entries;
      forall k | 2 <= k < |es'| ensures ChildLink(ino', live', pos', c, k, es'[k].inodeIndex) {
        assert ChildLink(ino, live, pos, c, k, es'[k].inodeIndex);
      }
    }
    if c == p { RemoveEntries(ino, view, live, pos, ino', p, x, e); }
    RemoveParent(ino, view, live, pos, ino', view', p, x, e, c);
  }

  /** The entries of the directory that has lost one. */
  lemma RemoveEntries(ino: seq<INode>, view: seq<Node>, live: set<nat>, pos: seq<nat>, ino': seq<INode>, p: nat, x: nat,
                      e: DirEntry)
    requires |view| == |pos| == |ino| == |ino'| && p < |ino| && view[p].DirNode? && x < |ino|
    requires DirLinks(ino, view[p].entries, live, pos, p) && 2 <= pos[x] < |view[p].entries|
    requires view[p].entries[pos[x]].inodeIndex == x
    requires forall c :: 0 <= c < |ino| && c != p && c != x ==> ino'[c] == ino[c]
    requires ino'[p].iparent == ino[p].iparent && e.inodeIndex == view[p].entries[|view[p].entries| - 1].inodeIndex
    ensures var es := view[p].entries;
            DirLinks(ino', Dropped(es, pos[x], e), live - {x}, Moved(pos, es, pos[x]), p)
  {
    var es, last := view[p].entries, |view[p].entries| - 1;
    var es', live', pos' := Dropped(es, pos[x], e), live - {x}, Moved(pos, es, pos[x]);
    assert ChildLink(ino, live, pos, p, last, es[last].inodeIndex);
    forall k | 2 <= k < |es'| ensures ChildLink(ino', live', pos', p, k, es'[k].inodeIndex) {
      assert es'[k] == if k == pos[x] then e else es[k];
      assert ChildLink(ino, live, pos, p, k, es[k].inodeIndex);
    }
  }

  /** The link of every other inode. */
  lemma RemoveParent(ino: seq<INode>, view: seq<Node>, live: set<nat>, pos: seq<nat>, ino': seq<INode>,
                     view': seq<Node>, p: nat, x: nat, e: DirEntry, c: nat)
    requires |view| == |pos| == |ino| == |ino'| == |view'| && c in live && c != x && c < |ino| && x < |ino| && p < |ino|
    requires Linked(ino, view, live, pos, c) && Linked(ino, view, live, pos, p) && view[p].DirNode?
    requires view[x].DirNode? ==> |view[x].entries| <= 2
    requires 2 <= pos[x] < |view[p].entries| && view[p].entries[pos[x]].inodeIndex == x && ino[x].iparent == p
    requires forall m :: 0 <= m < |ino| && m != p && m != x ==> ino'[m] == ino[m] && view'[m] == view[m]
    requires ino'[p].iparent == ino[p].iparent && x != p && x != 0 && (c == 0 ==> ino[c].iparent == 0)
    requires var es := view[p].entries;
             && e.inodeIndex == es[|es| - 1].inodeIndex
             && view'[p] == DirNode(Dropped(es, pos[x], e), view[p].blocks)
    ensures ParentLink(ino', view', live - {x}, Moved(pos, view[p].entries, pos[x]), c)
  {
    hide EntriesOf, InodesOf, BytesOf;
    var es, last := view[p].entries, |view[p].entries| - 1;
    assert ChildLink(ino, live, pos, p, last, es[last].inodeIndex);
    assert ino[c].iparent != x;
  }

  /** A resolved path ends in a directory and one of its three kinds of entry. */
  lemma {:induction false} HitParent(ino: seq<INode>, view: seq<Node>, live: set<nat>, pos: seq<nat>, d: nat, s: string)
    requires Tree(ino, view, live, pos) && d in live && Resolve(view, d, s).Hit?
    ensures var r := Resolve(view, d, s);
            && r.parent in live && r.child in live && r.parent < |view| && r.child < |view| && view[r.parent].DirNode?
            && (|| r.child == r.parent || r.child == ino[r.parent].iparent
                || (r.child != 0 && ino[r.child].iparent == r.parent))
    decreases |s|
  {
    hide CompLen, Rest;
    ResolveStep(view, d, s);
    assert Linked(ino, view, live, pos, d);
    var l := Lookup(view[d], s[..CompLen(s)]);
    var k := FirstMatch(view[d].entries, s[..CompLen(s)], 0);
    assert k >= 2 ==> ChildLink(ino, live, pos, d, k, view[d].entries[k].inodeIndex);
    if CompLen(s) < |s| {
      RestShrinks(s);
      HitParent(ino, view, live, pos, l.child, Rest(s));
    }
  }

  /** The removable case of fs2_rm: a leaf that is not its own parent directory
      hangs below the directory the path ends in. */
  lemma LeafParent(ino: seq<INode>, view: seq<Node>, live: set<nat>, pos: seq<nat>, path: string)
    requires Tree(ino, view, live, pos) && path != "" && Resolve(view, 0, path).Hit?
    requires var c := Resolve(view, 0, path).child;
             c != 0 && (c < |view| && view[c].DirNode? ==> |view[c].entries| <= 2)
    ensures var r := Resolve(view, 0, path);
            && r.parent in live && r.child in live && r.parent < |view| && r.child < |view| && view[r.parent].DirNode?
            && (r.child != r.parent ==> ino[r.child].iparent == r.parent)
  {
    HitParent(ino, view, live, pos, 0, path);
    var r := Resolve(view, 0, path);
    assert Linked(ino, view, live, pos, r.parent);
  }

  lemma TargetHit(h: HBlock, disk: seq<Block>, ino: seq<INode>, own: seq<Tag>, live: set<nat>, pos: seq<nat>,
                  path: string)
    requires Consistent(h, disk, ino, own, live, pos) && Target(View(disk, ino), path).Hit?
    ensures var t := Target(View(disk, ino), path);
            && t.child in live && t.parent in live && t.child < |ino| && t.parent < |ino|
            && View(disk, ino)[t.parent].DirNode?
            && (ino[t.child].ftype.Dir? <==> View(disk, ino)[t.child].DirNode?)
            && (ino[t.child].ftype.Dir? ==> |View(disk, ino)[t.child].entries| == ino[t.child].eof)
  {
    hide Resolve;
    if path != "" { HitParent(ino, View(disk, ino), live, pos, 0, path); }
    LiveNode(h, disk, ino, own, live, pos, Target(View(disk, ino), path).child);
  }

  lemma CheckedLeaf(h: HBlock, disk: seq<Block>, ino: seq<INode>, own: seq<Tag>, live: set<nat>, pos: seq<nat>,
                    path: string)
    requires Consistent(h, disk, ino, own, live, pos) && path != "" && Resolve(View(disk, ino), 0, path).Hit?
    requires var c := Resolve(View(disk, ino), 0, path).child;
             c != 0 && (c < |ino| && ino[c].ftype.Dir? ==> ino[c].eof <= 2)
    ensures var r := Resolve(View(disk, ino), 0, path);
            && r.parent in live && r.child in live && r.parent < |ino| && r.child < |ino|
            && View(disk, ino)[r.parent].DirNode?
            && (r.child != r.parent ==> ino[r.child].iparent == r.parent)
            && (View(disk, ino)[r.child].DirNode? ==> |View(disk, ino)[r.child].entries| <= 2)
  {
    hide Resolve;
    LeafParent(ino, View(disk, ino), live, pos, path);
  }

  /** The namespace after a creation that reports success: a new inode, the
      last one, and its entry in directory p if that had room for it. */
  ghost predicate Created(view: seq<Node>, view': seq<Node>, p: nat, name: string, ft: FType, dregLen: nat,
                          linked: bool) {
    && |view'| == |view| + 1 && p < |view| && view[p].DirNode?
    && NewView(view'[|view|], ft, |view|, p, dregLen)
    && view'[..|view|] == if linked then view[p := Added(dregLen, view[p], DirEntry(|view|, Pad(name)))] else view
  }

  /** What a creation has taken from the volume, and where the blocks of the
      parent directory lie then. */
  ghost predicate Linking(h0: HBlock, h: HBlock, ino0: seq<INode>, ino: seq<INode>, p: nat, ft: FType, linked: bool) {
    && p < |ino0| < |ino|
    && Charged(h0, h, Reserved(h0, ft) + if linked then EntryBlocks(h0, ino0[p]) else 0)
    && Extended(NodeBlocks(ino0[p]), NodeBlocks(ino[p]), h0.nextBlock + Reserved(h0, ft), h0.dregLen)
    && (forall m :: 0 <= m < |ino0| && m != p ==> ino[m] == ino0[m])
    && Given(ino[|ino0|], ft, h0.nextBlock + InodeBlocksNeeded(h0), h0.dregLen)
  }

  lemma EnteredLinking(h0: HBlock, h: HBlock, ino0: seq<INode>, ino: seq<INode>, view0: seq<Node>, view: seq<Node>,
                       p: nat, name: string, ft: FType, linked: bool)
    requires Entered(ino0, ino, view0, view, p, name, ft, h.dregLen, h0.nextBlock + InodeBlocksNeeded(h0), linked)
    requires p < |ino0|
    requires Charged(h0, h, Reserved(h0, ft) + if linked then EntryBlocks(h0, ino0[p]) else 0)
    ensures Linking(h0, h, ino0, ino, p, ft, linked)
  {
    hide Sized, NewView, Added, NodeBlocks, Given;
    assert forall m :: 0 <= m < |ino0| ==> ino[m] == ino[..|ino0|][m];
  }

  /** A creation keeps the tree. */
  lemma EnteredTree(ino: seq<INode>, view: seq<Node>, live: set<nat>, pos: seq<nat>, ino': seq<INode>, view': seq<Node>,
                    p: nat, name: string, ft: FType, dregLen: nat, a: nat, linked: bool)
    requires Tree(ino, view, live, pos) && p in live && p < |view| && view[p].DirNode?
    requires Entered(ino, ino', view, view', p, name, ft, dregLen, a, linked)
    ensures Tree(ino', view', if linked then live + {|ino|} else live, pos + [if linked then |view[p].entries| else 0])
    ensures Created(view, view', p, name, ft, dregLen, linked) && ino' != []
  {
    hide Tree, Sized, NewView, Added, NodeBlocks, Extended, Given, Pad;
    assert |view| == |ino| by { TreeSize(ino, view, live, pos); }
    if linked {
      TreeLink(ino, view, live, pos, ino', view', p, DirEntry(|ino|, Pad(name)), ft, dregLen,
               a + if ft.Dir? then dregLen else 0);
    } else {
      TreeSpare(ino, view, live, pos, ino', view');
    }
  }

  lemma TreeSize(ino: seq<INode>, view: seq<Node>, live: set<nat>, pos: seq<nat>)
    requires Tree(ino, view, live, pos)
    ensures |view| == |pos| == |ino|
  {
  }

  lemma ConsistentClean(h: HBlock, disk: seq<Block>, ino: seq<INode>, own: seq<Tag>, live: set<nat>, pos: seq<nat>,
                        c: Caches)
    requires Consistent(h, disk, ino, own, live, pos)
    requires ICacheOk(h, ino, c.icindex, c.icaddr, c.icache)
    requires DCacheOk(disk, own, c.dcaddr, c.dcache) && XCacheOk(disk, own, c.xcaddr, c.xcache)
    ensures Clean(h, disk, ino, own, c) && ino != [] && 0 < |disk| && Tree(ino, View(disk, ino), live, pos)
    ensures BlockAt(disk, 0) == HeaderBlock(h)
  {
  }

  lemma CleanConsistent(h: HBlock, disk: seq<Block>, ino: seq<INode>, own: seq<Tag>, live: set<nat>, pos: seq<nat>,
                        c: Caches)
    requires Clean(h, disk, ino, own, c) && ino != []
    requires Tree(ino, View(disk, ino), live, pos)
    ensures Consistent(h, disk, ino, own, live, pos)
    ensures ICacheOk(h, ino, c.icindex, c.icaddr, c.icache)
    ensures DCacheOk(disk, own, c.dcaddr, c.dcache) && XCacheOk(disk, own, c.xcaddr, c.xcache)
  {
  }

  lemma DiskHeader(h: HBlock, disk: seq<Block>, ino: seq<INode>, own: seq<Tag>, live: set<nat>, pos: seq<nat>)
    requires Consistent(h, disk, ino, own, live, pos)
    ensures 0 < |disk| && disk[0] == HeaderBlock(h) && HeaderOf(disk[0]) == h && h.ident == "CWFS 2.1"
  {
    hide Tree, Owned, Nodes;
  }

  lemma RootIsDir(h: HBlock, disk: seq<Block>, ino: seq<INode>, own: seq<Tag>, live: set<nat>, pos: seq<nat>)
    requires Consistent(h, disk, ino, own, live, pos)
    ensures 0 < |ino| && ino[0].ftype.Dir? && |View(disk, ino)| == |ino|
  {
  }

  lemma RootIsNode(h: HBlock, disk: seq<Block>, ino: seq<INode>, own: seq<Tag>, live: set<nat>, pos: seq<nat>)
    requires Consistent(h, disk, ino, own, live, pos)
    ensures 0 < |View(disk, ino)| && View(disk, ino)[0].DirNode?
  {
    hide Owned, Nodes, Stored, HeaderOk, View;
  }

  /** The arguments fs2_format_volume turns down. */
  predicate BadFormat(nblocks: nat, isz: nat, fsz: nat, dsz: nat) {
    nblocks < 1 + isz + dsz || dsz == 0 || fsz == 0 || isz == 0
  }

  /** The header of a new volume. */
  predicate Formatted(h: HBlock, nblocks: nat, isz: nat, fsz: nat, dsz: nat) {
    && h.nextInode == 1 && h.nextBlock == 1 + isz + dsz && h.nblocks == nblocks
    && h.iregLen == isz && h.fregLen == fsz && h.dregLen == dsz && |ITab(h)| == isz
  }

  lemma EmptyHeader(h: HBlock, ndisk: nat)
    requires |h.regStart| == |h.regLen| == 800 && h.separator == 800 && h.ident == "CWFS 2.1"
    requires h.regStart == Zeroes(800) && Short(h.regLen)
    requires 1 <= h.iregLen < 256 && 1 <= h.fregLen < 256 && 1 <= h.dregLen < 256
    requires 1 <= h.nextBlock <= h.nblocks <= ndisk < NO_BLOCK
    ensures HeaderOk(h, ndisk) && ITab(h) == []
    ensures HasInodeSpace(h) <==> (h.nextInode == 0 ==> h.nextBlock + h.iregLen <= h.nblocks)
  {
    FlatEmptyFrom(h.regStart, h.regLen, 0);
  }

  /** A volume of which only the header exists, in memory. */
  lemma EmptyVolume(h: HBlock, disk: seq<Block>, c: Caches)
    requires HeaderOk(h, |disk|) && h.nextBlock == 1 && h.nextInode == 0 && ITab(h) == []
    requires |c.icache| == 32 && forall s :: 0 <= s < 32 ==> TableShape(c.icache[s])
    requires |c.dcache| == 128 && NamesOk(c.dcache)
    requires 0 < c.xcaddr < |disk| ==> disk[c.xcaddr] == c.xcache
    ensures Clean(h, disk, [], [HeaderTag], c)
  {
  }

  /** The inode table is shorter than any block index that stands for "unset". */
  lemma TableFits(h: HBlock, n: nat, own: seq<Tag>)
    requires HeaderOk(h, n) && |own| == h.nextBlock && OwnsInodes(own, ITab(h))
    ensures |ITab(h)| < NO_BLOCK
  {
    Injective(own, ITab(h), |ITab(h)|);
    BoundedCard(FirstBlocks(ITab(h), |ITab(h)|), |own|);
  }

  function FirstBlocks(itab: seq<nat>, n: nat): set<nat>
    requires n <= |itab|
  {
    set j | 0 <= j < n :: itab[j]
  }

  lemma {:induction false} Injective(own: seq<Tag>, itab: seq<nat>, n: nat)
    requires OwnsInodes(own, itab) && n <= |itab|
    ensures |FirstBlocks(itab, n)| == n
  {
    hide EntriesOf, InodesOf, BytesOf;
    if n > 0 {
      Injective(own, itab, n - 1);
      var s := FirstBlocks(itab, n - 1);
      assert own[itab[n - 1]] == InodeTag(n - 1);
      assert forall j :: 0 <= j < n - 1 ==> own[itab[j]] == InodeTag(j);
      assert FirstBlocks(itab, n) == s + {itab[n - 1]};
    }
  }

  lemma {:induction false} BoundedCard(s: set<nat>, n: nat)
    requires forall x :: x in s ==> x < n
    ensures |s| <= n
  {
    if n > 0 {
      BoundedCard(s - {n - 1}, n - 1);
    } else {
      assert s == {};
    }
  }

  /** The last entry of directory p names an inode that no entry of p names any
      more, and there is no tree of the inodes reachable before without c. */
  ghost predicate LostLast(view: seq<Node>, view': seq<Node>, ino': seq<INode>, live: set<nat>, c: nat, p: nat) {
    && p < |view| && view[p].DirNode? && view[p].entries != [] && p < |view'| && view'[p].DirNode?
    && (var y := view[p].entries[|view[p].entries| - 1].inodeIndex;
        y in live && y != c && forall j :: 2 <= j < |view'[p].entries| ==> view'[p].entries[j].inodeIndex != y)
    && forall pos' :: !Tree(ino', view', live - {c}, pos')
  }

  /** Every inode of a tree but the root is named in its parent. */
  lemma TreeNames(ino: seq<INode>, view: seq<Node>, live: set<nat>, pos: seq<nat>, y: nat)
    requires Tree(ino, view, live, pos) && y in live && y != 0
    ensures y < |ino| && ino[y].iparent < |view| && view[ino[y].iparent].DirNode?
    ensures exists j :: 2 <= j < |view[ino[y].iparent].entries| && view[ino[y].iparent].entries[j].inodeIndex == y
  {
    assert Linked(ino, view, live, pos, y);
  }

  /** An entry for another inode moved into the gap leaves no tree. */
  lemma LinkLost(ino: seq<INode>, view: seq<Node>, live: set<nat>, pos: seq<nat>, ino': seq<INode>, view': seq<Node>,
                 p: nat, x: nat, e: DirEntry)
    requires Tree(ino, view, live, pos) && p in live && x in live && x != 0 && x != p && ino[x].iparent == p
    requires view[x].DirNode? ==> |view[x].entries| <= 2
    requires |ino'| == |view'| == |ino|
    requires forall c :: 0 <= c < |ino| && c != p && c != x ==> ino'[c] == ino[c]
    requires ino'[p].iparent == ino[p].iparent
    requires view[p].DirNode? && pos[x] < |view[p].entries| - 1
    requires var es := view[p].entries;
             && e.inodeIndex != es[|es| - 1].inodeIndex
             && view'[p] == DirNode(Dropped(es, pos[x], e), view[p].blocks)
    ensures LostLast(view, view', ino', live, x, p)
  {
    LinkAt(ino, view, live, pos, p, x);
    var es, last := view[p].entries, |view[p].entries| - 1;
    var y := es[last].inodeIndex;
    assert Linked(ino, view, live, pos, p);
    assert ChildLink(ino, live, pos, p, last, y);
    forall j | 2 <= j < last ensures view'[p].entries[j].inodeIndex != y {
      assert ChildLink(ino, live, pos, p, j, es[j].inodeIndex);
    }
    forall pos' ensures !Tree(ino', view', live - {x}, pos') {
      if Tree(ino', view', live - {x}, pos') { TreeNames(ino', view', live - {x}, pos', y); }
    }
  }

  /** A clean volume whose directory p has lost its link to the leaf x is
      consistent, if the cache was fresh. */
  lemma CleanWithout(h: HBlock, disk: seq<Block>, ino0: seq<INode>, view: seq<Node>, ino: seq<INode>, own: seq<Tag>,
                     live: set<nat>, pos: seq<nat>, c: Caches, p: nat, x: nat, xcaddr: nat, xcache: Block)
    requires Tree(ino0, view, live, pos) && p in live && x in live && x != 0 && x != p && x < |ino0|
    requires ino0[x].iparent == p
    requires view[x].DirNode? ==> |view[x].entries| <= 2
    requires Clean(h, disk, ino, own, c) && |ino| == |ino0| && p < |ino0|
    requires GapFilled(view[p], View(disk, ino)[p], ino0[p], ino[p], pos[x], xcaddr, xcache, c.xcaddr, c.xcache)
    requires OnlyThese(view, View(disk, ino), x, p)
    requires forall m :: 0 <= m < |ino| && m != x && m != p ==> ino[m] == ino0[m]
    ensures view[p].DirNode? && pos[x] < |view[p].entries|
    ensures var es, live' := view[p].entries, live - {x};
            if FreshLast(es, NodeBlocks(ino0[p]), pos[x], xcaddr, xcache)
            then Tree(ino, View(disk, ino), live', Moved(pos, es, pos[x])) && ino != []
            else LostLast(view, View(disk, ino), ino, live, x, p)
  {
    hide Sized, NodeBlocks, Clean, Replacement, Dropped, Moved, Linked, View, FreshLast, LastLoaded, LostLast;
    LinkAt(ino0, view, live, pos, p, x);
    var es, blocks := view[p].entries, NodeBlocks(ino0[p]);
    var e := Replacement(es, blocks, pos[x], xcaddr, xcache);
    FreshMoves(es, blocks, pos[x], xcaddr, xcache);
    if FreshLast(es, blocks, pos[x], xcaddr, xcache) {
      TreeRemove(ino0, view, live, pos, ino, View(disk, ino), p, x, e);
    } else {
      StaleIsEarlier(es, blocks, pos[x], xcaddr, xcache);
      LinkLost(ino0, view, live, pos, ino, View(disk, ino), p, x, e);
    }
  }

  lemma StaleIsEarlier(es: seq<DirEntry>, blocks: seq<nat>, k: nat, xcaddr: nat, xcache: Block)
    requires k < |es| && !FreshLast(es, blocks, k, xcaddr, xcache)
    ensures k < |es| - 1
  {
  }

  /** A leaf directory has just its two entries, and names itself in the first. */
  lemma LeafEntries(ino: seq<INode>, view: seq<Node>, live: set<nat>, pos: seq<nat>, x: nat)
    requires Tree(ino, view, live, pos) && x in live && x < |view| && view[x].DirNode? && |view[x].entries| <= 2
    ensures |view[x].entries| == 2 && view[x].entries[0].inodeIndex == x
  {
    assert Linked(ino, view, live, pos, x);
  }

  /** The removal of a leaf from another directory that fs2_unlink has found. */
  lemma RemovalFound(h: HBlock, disk: seq<Block>, ino0: seq<INode>, view: seq<Node>, ino: seq<INode>, own: seq<Tag>,
                     live: set<nat>, pos: seq<nat>, c: Caches, p: nat, x: nat, k: nat,
                     xcaddr: nat, xcache: Block, move: bool)
    requires Tree(ino0, view, live, pos) && p in live && x in live && x != 0 && x != p && x < |ino0|
    requires ino0[x].iparent == p
    requires view[x].DirNode? ==> |view[x].entries| <= 2
    requires Clean(h, disk, ino, own, c)
    requires Dropping(ino0, ino, view, View(disk, ino), p, x, k, xcaddr, xcache, c.xcaddr, c.xcache, Success, move)
    ensures |view| == |ino0| && p < |view| && view[p].DirNode? && k < |view[p].entries| && InReach(k)
    ensures k == LinkOf(view[p].entries, x, 0)
    ensures var es, live' := view[p].entries, live - {x};
            if FreshLast(es, NodeBlocks(ino0[p]), k, xcaddr, xcache)
            then && Tree(ino, View(disk, ino), live', Moved(pos, es, k)) && ino != []
                 && !LostLast(view, View(disk, ino), ino, live, x, p)
            else LostLast(view, View(disk, ino), ino, live, x, p)
  {
    hide Tree, Clean, View, NodeBlocks, GapFilled, FreshLast, Moved, SeenLink;
    TreeSize(ino0, view, live, pos);
    TheLink(ino0, view, live, pos, p, x, k);
    CleanWithout(h, disk, ino0, view, ino, own, live, pos, c, p, x, xcaddr, xcache);
  }

  /** The removal of a leaf from another directory that fs2_unlink has not found. */
  lemma RemovalMissed(ino0: seq<INode>, view: seq<Node>, ino: seq<INode>, view': seq<Node>, live: set<nat>,
                      pos: seq<nat>, p: nat, x: nat, k: nat, xcaddr: nat, xcache: Block, xcaddr': nat, xcache': Block,
                      move: bool, valid: bool, gone: bool, lost: bool)
    requires Tree(ino0, view, live, pos) && p in live && x in live && x != 0 && x != p && x < |ino0|
    requires ino0[x].iparent == p
    requires view[x].DirNode? ==> |view[x].entries| <= 2
    requires Dropping(ino0, ino, view, view', p, x, k, xcaddr, xcache, xcaddr', xcache', NoFile, move)
    requires move <==> x + 1 < |ino0|
    requires !move ==> valid
    ensures |view| == |ino0| && p < |view| && view[p].DirNode?
    ensures Removal(view, view', ino0, ino, x, p, xcaddr, xcache, xcaddr', xcache', NoFile, valid, gone, lost)
  {
    hide Tree, Unseen, Removal;
    TreeSize(ino0, view, live, pos);
    LinkAt(ino0, view, live, pos, p, x);
    NotRemoved(view, view', ino0, ino, x, p, xcaddr, xcache, xcaddr', xcache', valid, gone, lost);
  }

  /** The removal of a directory through its own entry. */
  lemma RemovalSelf(ino0: seq<INode>, view: seq<Node>, ino: seq<INode>, view': seq<Node>, live: set<nat>, pos: seq<nat>,
                    x: nat, k: nat, xcaddr: nat, xcache: Block, xcaddr': nat, xcache': Block,
                    outcome: Outcome, move: bool)
    requires Tree(ino0, view, live, pos) && x in live && x < |ino0|
    requires Dropping(ino0, ino, view, view', x, x, k, xcaddr, xcache, xcaddr', xcache', outcome, move)
    requires |view[x].entries| <= 2 && (move <==> x + 1 < |ino0|) && (outcome == Success || outcome == NoFile)
    ensures |view| == |ino0| && view[x].DirNode? && |view[x].entries| == 2
    ensures SelfRemoval(view, view', ino, x, outcome)
  {
    hide Tree, LastLoaded, NodeBlocks;
    TreeSize(ino0, view, live, pos);
    LeafEntries(ino0, view, live, pos, x);
    WipedBlocks(ino0[x]);
    var es := view[x].entries;
    assert InReach(0) && es[0].inodeIndex == x;
    if !move {
      assert k == 0 || !SeenLink(es, x, k);
      assert Dropped(es, 0, es[1]) == [es[1]];
    }
  }
}
