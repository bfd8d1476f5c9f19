/** Laws of the file system that relate several operations: what paths resolve to
    before and after changes, when a write keeps every byte, and where the code
    falls short of its documentation, with the exact condition. */
module Fs2Laws {
  import opened Fs2Layout
  import opened Fs2State
  import opened Fs2Path
  import opened Fs2Update
  import opened Fs2Dirs
  import opened Fs2Tree

  // ------------------------------------------------------------- components

  /** The components fs2_find_file looks up one after the other: a leading or a
      trailing '/' stands for an empty one. */
  function Components(s: string): (cs: seq<string>)
    ensures cs != []
    decreases |s|
  {
    var i := CompLen(s);
    if i == |s| then [s] else [s[..i]] + Components(Rest(s))
  }

  /** Folding a list of components through the tree. */
  function Walk(view: seq<Node>, d: nat, comps: seq<string>): PathResult
    requires comps != []
    decreases |comps|
  {
    if |comps[0]| > 28 then Miss(InvalidPath)
    else if d >= |view| then Miss(NoFile)
    else match Lookup(view[d], comps[0])
      case Missing(o) => Miss(o)
      case Found(c) => if |comps| == 1 then Hit(c, d) else Walk(view, c, comps[1..])
  }

  /** Path resolution is the fold of the components. */
  lemma {:induction false} ResolveIsFold(view: seq<Node>, d: nat, s: string)
    ensures Resolve(view, d, s) == Walk(view, d, Components(s))
    decreases |s|
  {
    hide Rest, Lookup;
    var i := CompLen(s);
    assert s[..|s|] == s;
    RestShrinks(s);
    if i < |s| && i <= 28 && d < |view| && Lookup(view[d], s[..i]).Found? {
      ResolveIsFold(view, Lookup(view[d], s[..i]).child, Rest(s));
      assert Components(s)[1..] == Components(Rest(s));
    }
  }

  function Join(cs: seq<string>): string
    requires cs != []
  {
    if |cs| == 1 then cs[0] else cs[0] + ("/" + Join(cs[1..]))
  }

  /** A name that can stand between two '/'. */
  predicate PlainName(c: string) { c != "" && forall j :: 0 <= j < |c| ==> c[j] != '/' }

  /** Joining names with '/' and taking the components of the result is the identity. */
  lemma {:induction false} ComponentsOfJoin(cs: seq<string>)
    requires cs != [] && forall i :: 0 <= i < |cs| ==> PlainName(cs[i])
    ensures Components(Join(cs)) == cs && Join(cs) != "" && Join(cs)[0] != '/'
    decreases |cs|
  {
    hide Rest;
    var c, s := cs[0], Join(cs);
    assert PlainName(c);
    if |cs| == 1 {
      CompLenUnique(s, |s|);
    } else {
      var t := Join(cs[1..]);
      ComponentsOfJoin(cs[1..]);
      CompLenUnique(s, |c|);
      SlashesUnique("/" + t, 1);
      assert s[|c|..] == "/" + t;
      RestIs(s, |c|, 1);
      assert s[|c| + 1..] == t;
      RestShrinks(s);
      assert Components(s) == [s[..|c|]] + Components(Rest(s));
    }
  }

  // ---------------------------------------------------------------- lookups

  /** The name array holds exactly this name. */
  predicate IsName(e: DirEntry, name: string) { e.name == Pad(name) }

  /** Index of the first entry of exactly this name. */
  function ExactMatch(es: seq<DirEntry>, name: string, k: nat): (r: nat)
    requires k <= |es|
    ensures k <= r <= |es| && (r < |es| ==> IsName(es[r], name))
    ensures forall m :: k <= m < r ==> !IsName(es[m], name)
    decreases |es| - k
  {
    if k == |es| || IsName(es[k], name) then k else ExactMatch(es, name, k + 1)
  }

  /** The index a lookup stops at, |es| if it finds nothing. */
  function LookupIndex(es: seq<DirEntry>, blocks: nat, name: string): nat {
    var k := FirstMatch(es, name, 0);
    if k < Searched(es, blocks) then k else |es|
  }

  /** The lookup finds the entry of that name, or rightly none, exactly if the
      first entry it sees that begins with the name has no longer name, and if
      no entry of that name is left in the block it does not search. */
  lemma LookupExactIff(es: seq<DirEntry>, blocks: nat, name: string)
    requires |name| <= 28
    ensures LookupIndex(es, blocks, name) == ExactMatch(es, name, 0)
        <==> (var k := FirstMatch(es, name, 0);
              if k < Searched(es, blocks) then IsName(es[k], name)
              else forall m :: Searched(es, blocks) <= m < |es| ==> !IsName(es[m], name))
  {
    var k, m := FirstMatch(es, name, 0), ExactMatch(es, name, 0);
    if m < |es| { assert NameMatches(es[m].name, name); }
  }

  /** In a directory of a single block nothing is ever found. */
  lemma OneBlockBlind(n: Node, name: string)
    requires n.DirNode? && n.blocks <= 1
    ensures Lookup(n, name) == Missing(NoFile)
  {
  }

  lemma {:induction false} FirstMatchAppend(es: seq<DirEntry>, e: DirEntry, name: string, k: nat)
    requires k <= |es|
    ensures FirstMatch(es + [e], name, k) ==
            if FirstMatch(es, name, k) < |es| then FirstMatch(es, name, k)
            else if NameMatches(e.name, name) then |es| else |es| + 1
    decreases |es| - k
  {
    if k < |es| {
      assert (es + [e])[k] == es[k];
      FirstMatchAppend(es, e, name, k + 1);
    } else {
      assert (es + [e])[k] == e;
    }
  }

  /** Adding an entry keeps every lookup that succeeded, and the new entry is
      what its name finds exactly if no entry before it begins with that name
      and it is not in the directory's last block. */
  lemma AddedLookup(n: Node, e: DirEntry, dregLen: nat, name: string)
    requires n.DirNode?
    ensures Lookup(n, name).Found? ==> Lookup(Added(dregLen, n, e), name) == Lookup(n, name)
    ensures && NameMatches(e.name, name)
            && (forall k :: 0 <= k < |n.entries| ==> n.entries[k].inodeIndex != e.inodeIndex) ==>
              (Lookup(Added(dregLen, n, e), name) == Found(e.inodeIndex)
               <==> FirstMatch(n.entries, name, 0) == |n.entries| < 128 * (Added(dregLen, n, e).blocks - 1))
  {
    FirstMatchAppend(n.entries, e, name, 0);
  }

  // ------------------------------------------------- writing and the namespace

  /** New contents for a file change no path. */
  lemma {:induction false} ResolveKeepsFiles(view: seq<Node>, c: nat, bytes: seq<Byte>, d: nat, s: string)
    requires c < |view| && view[c].FileNode?
    ensures Resolve(view[c := FileNode(bytes)], d, s) == Resolve(view, d, s)
    decreases |s|
  {
    hide Rest;
    var view' := view[c := FileNode(bytes)];
    RestShrinks(s);
    if d < |view| {
      ResolveStep(view, d, s);
      ResolveStep(view', d, s);
      var i := CompLen(s);
      if i < |s| && i <= 28 && Lookup(view[d], s[..i]).Found? {
        ResolveKeepsFiles(view, c, bytes, Lookup(view[d], s[..i]).child, Rest(s));
      }
    }
  }

  lemma PathsStay(view: seq<Node>, c: nat, bytes: seq<Byte>)
    requires c < |view| && view[c].FileNode?
    ensures forall s :: Target(view[c := FileNode(bytes)], s) == Target(view, s)
  {
    hide Resolve;
    forall s ensures Target(view[c := FileNode(bytes)], s) == Target(view, s) {
      ResolveKeepsFiles(view, c, bytes, 0, s);
    }
  }

  // ------------------------------------------------------------ after a creation

  /** Every path that led somewhere before a creation leads there afterwards. */
  lemma {:induction false} CreateKeepsPaths(view: seq<Node>, view': seq<Node>, p: nat, name: string, ft: FType,
                                            dregLen: nat, linked: bool, d: nat, s: string)
    requires Created(view, view', p, name, ft, dregLen, linked) && Resolve(view, d, s).Hit?
    ensures Resolve(view', d, s) == Resolve(view, d, s)
    decreases |s|
  {
    hide Rest, Lookup, NewView, Added;
    var i := CompLen(s);
    RestShrinks(s);
    ResolveStep(view, d, s);
    ResolveStep(view', d, s);
    assert view'[d] == view'[..|view|][d];
    if linked && d == p { AddedLookup(view[p], DirEntry(|view|, Pad(name)), dregLen, s[..i]); }
    if i < |s| {
      CreateKeepsPaths(view, view', p, name, ft, dregLen, linked, Lookup(view[d], s[..i]).child, Rest(s));
    }
  }

  lemma CreateKeepsTargets(view: seq<Node>, view': seq<Node>, p: nat, name: string, ft: FType, dregLen: nat,
                           linked: bool)
    requires Created(view, view', p, name, ft, dregLen, linked)
    ensures p < |view| && view[p].DirNode?
    ensures forall s :: Target(view, s).Hit? ==> Target(view', s) == Target(view, s)
  {
    forall s | Target(view, s).Hit? ensures Target(view', s) == Target(view, s) {
      if s != "" { CreateKeepsPaths(view, view', p, name, ft, dregLen, linked, 0, s); }
    }
  }

  // ----------------------------------------------------- what stays missing

  /** Of the names that C strings can hold, a stored name matches exactly those it
      begins with, however short it is. */
  lemma PadMatches(name: string, n: string)
    requires '\0' !in n && |n| <= 28
    ensures NameMatches(Pad(name), n) <==> n <= name
  {
    if |name| < |n| { assert Pad(name)[|name|] == '\0' && n[|name|] in n; }
  }

  /** The name c, missing before, is found in directory n once it has got an entry
      for `name`: that entry begins with c and can be seen, or an old one is seen
      for the first time, because the directory has grown. */
  predicate Appears(n: Node, name: string, dregLen: nat, c: string)
    requires n.DirNode?
  {
    if FirstMatch(n.entries, c, 0) < |n.entries| then |n.entries| == 128 * n.blocks
    else c <= name && Shows(n, c, dregLen)
  }

  lemma MissingThen(n: Node, i: nat, name: string, dregLen: nat, c: string)
    requires n.DirNode? && |n.entries| <= 128 * n.blocks && 1 <= dregLen
    requires '\0' !in c && |c| <= 28 && Lookup(n, c).Missing?
    ensures var l := Lookup(Added(dregLen, n, DirEntry(i, Pad(name))), c);
            (l.Found? <==> Appears(n, name, dregLen, c)) && (l.Missing? ==> l == Missing(NoFile) == Lookup(n, c))
  {
    hide Pad;
    PadMatches(name, c);
    FirstMatchAppend(n.entries, DirEntry(i, Pad(name)), c, 0);
  }

  /** Resolving s from d on, the component c is looked up in x in vain. */
  predicate Stops(view: seq<Node>, d: nat, s: string, x: nat, c: string)
    decreases |s|
  {
    var i := CompLen(s);
    && i <= 28 && d < |view|
    && match Lookup(view[d], s[..i])
       case Missing(_) => x == d && c == s[..i]
       case Found(e) => i < |s| && Stops(view, e, Rest(s), x, c)
  }

  /** Lookups lead from these inodes to these inodes alone. */
  ghost predicate Inside(view: seq<Node>, live: set<nat>) {
    forall e, n :: e in live ==> e < |view| && (Lookup(view[e], n).Found? ==> Lookup(view[e], n).child in live)
  }

  /** The path s, missing before, comes to something a creation has made appear. */
  ghost predicate NewlySeen(view: seq<Node>, p: nat, name: string, dregLen: nat, d: nat, s: string)
    requires p < |view| && view[p].DirNode?
  {
    exists c :: Stops(view, d, s, p, c) && Appears(view[p], name, dregLen, c)
  }

  /** Every path that led nowhere before a creation does so afterwards, with the
      same outcome, unless it looks up a name that has appeared. */
  lemma {:induction false} CreateKeepsMisses(view: seq<Node>, view': seq<Node>, p: nat, name: string, ft: FType,
                                             dregLen: nat, linked: bool, live: set<nat>, d: nat, s: string)
    requires Created(view, view', p, name, ft, dregLen, linked)
    requires |view[p].entries| <= 128 * view[p].blocks && 1 <= dregLen && Inside(view, live) && d in live
    requires '\0' !in s && Resolve(view, d, s).Miss?
    requires linked ==> !NewlySeen(view, p, name, dregLen, d, s)
    ensures Resolve(view', d, s) == Resolve(view, d, s)
    decreases |s|
  {
    hide Rest, Lookup, NewView, Added, Appears, Pad;
    var i := CompLen(s);
    RestShrinks(s);
    ResolveStep(view, d, s);
    ResolveStep(view', d, s);
    assert view'[d] == view'[..|view|][d];
    if i <= 28 {
      var l := Lookup(view[d], s[..i]);
      var e := DirEntry(|view|, Pad(name));
      if l.Missing? {
        assert Stops(view, d, s, d, s[..i]);
        if linked && d == p { MissingThen(view[p], |view|, name, dregLen, s[..i]); }
      } else {
        if linked && d == p { AddedLookup(view[p], e, dregLen, s[..i]); }
        RestWithin(s);
        forall c | Stops(view, l.child, Rest(s), p, c) ensures Stops(view, d, s, p, c) {}
        CreateKeepsMisses(view, view', p, name, ft, dregLen, linked, live, l.child, Rest(s));
      }
    }
  }

  lemma RestWithin(s: string)
    ensures forall x :: CompLen(s) < |s| && x in Rest(s) ==> x in s
  {
  }

  /** Nothing is found below a file. */
  lemma ThroughFile(view: seq<Node>, s: string, t: string)
    requires s != "" && s[|s| - 1] != '/' && t != "" && t[0] == '/'
    requires Target(view, s).Hit? && Target(view, s).child < |view| && view[Target(view, s).child].FileNode?
    ensures Target(view, s + t) == Miss(if CompLen(Rest(t)) > 28 then InvalidPath else BadFType)
    ensures PlainName(t[1..]) && |t[1..]| <= 28 ==> Target(view, s + t) == Miss(BadFType)
  {
    hide Resolve;
    ResolveBelow(view, 0, s, t);
    ResolveStep(view, Target(view, s).child, Rest(t));
    if PlainName(t[1..]) {
      CompLenUnique(t, 0);
      SlashesUnique(t[0..], 1);
      RestIs(t, 0, 1);
      CompLenUnique(t[1..], |t[1..]|);
    }
  }

  // ---------------------------------------------------- where a creation leads

  /** Whether a lookup of the name finds the entry a creation has just added. */
  predicate Shows(n: Node, name: string, dregLen: nat)
    requires n.DirNode?
  {
    && FirstMatch(n.entries, name, 0) == |n.entries|
    && |n.entries| < 128 * ((if |n.entries| < 128 * n.blocks then n.blocks else n.blocks + dregLen) - 1)
  }

  /** The directory the part of the path before the name leads to. */
  predicate ParentFound(root: Node, path: string)
    requires path != ""
  {
    || PlainName(path) || ParentEnd(path) != 0
    || (Rest(path) == NewName(path) && Lookup(root, path[..CompLen(path)]) == Found(0))
  }

  /** The path given to fs2_create leads to the new inode afterwards, in the
      directory it was entered in, exactly if the entry was stored, is not in
      the directory's last block, no entry left there unseen begins with the
      same name, the name fits an entry, and the part of the path before it
      leads to that directory.  For a parent part of one character that is the
      root or nothing, and for "/name" never. */
  lemma CreateResolves(view: seq<Node>, view': seq<Node>, path: string, ft: FType, dregLen: nat, linked: bool)
    requires path != "" && path[|path| - 1] != '/' && CreateParent(view, path).Hit?
    requires var p := CreateParent(view, path).child;
             && Created(view, view', p, NewName(path), ft, dregLen, linked)
             && forall k :: 0 <= k < |view[p].entries| ==> view[p].entries[k].inodeIndex != |view|
    requires Target(view, path) == Miss(NoFile)
    ensures var p, name := CreateParent(view, path).child, NewName(path);
            Resolve(view', 0, path) == Hit(|view|, p)
            <==> linked && Shows(view[p], name, dregLen) && |name| <= 28
                 && ParentFound(if p == 0 then Added(dregLen, view[0], DirEntry(|view|, Pad(name))) else view[0], path)
  {
    hide Resolve, ParentEnd, NewName, Lookup, NewView, Rest, CompLen, LastSlash, Shows;
    var p, name := CreateParent(view, path).child, NewName(path);
    assert view'[p] == view'[..|view|][p];
    NameFits(view[p], name);
    EntryShows(view, view', p, name, ft, dregLen, linked);
    if PlainName(path) || ParentEnd(path) != 0 {
      PathInParent(view, path);
      PlainIsName(path);
      if ParentEnd(path) != 0 {
        CreateKeepsPaths(view, view', p, name, ft, dregLen, linked, 0, path[..ParentEnd(path) + 1]);
      }
      PathInParent(view', path);
    } else if LastSlash(path, |path| - 1) == 0 {
      SlashInFront(path);
      LeadingSlash(path);
      TwoSteps(view', path);
      SlashUnseen(view, view', path, ft, dregLen, linked);
    } else {
      ShortParent(path);
      TwoSteps(view', path);
    }
  }

  /** What looking the new name up in directory p finds after a creation there. */
  lemma EntryShows(view: seq<Node>, view': seq<Node>, p: nat, name: string, ft: FType, dregLen: nat, linked: bool)
    requires Created(view, view', p, name, ft, dregLen, linked)
    requires forall k :: 0 <= k < |view[p].entries| ==> view[p].entries[k].inodeIndex != |view|
    ensures |name| <= 28 ==> (Lookup(view'[p], name) == Found(|view|) <==> linked && Shows(view[p], name, dregLen))
    ensures linked ==> view'[p] == Added(dregLen, view[p], DirEntry(|view|, Pad(name)))
  {
    hide NewView;
    assert view'[p] == view'[..|view|][p];
    var e := DirEntry(|view|, Pad(name));
    NameFits(view[p], name);
    AddedLookup(view[p], e, dregLen, name);
  }

  /** Resolving a path of two components, of which the second is a plain name. */
  lemma TwoSteps(view: seq<Node>, path: string)
    requires view != [] && CompLen(path) <= 1 < |path| && CompLen(path) < |path| && PlainName(Rest(path))
    ensures var l, name := Lookup(view[0], path[..CompLen(path)]), Rest(path);
            Resolve(view, 0, path) ==
              if l.Missing? then Miss(l.why)
              else if |name| > 28 then Miss(InvalidPath)
              else if l.child >= |view| then Miss(NoFile)
              else match Lookup(view[l.child], name) case Missing(o) => Miss(o) case Found(c) => Hit(c, l.child)
  {
    hide Lookup, Rest, CompLen;
    var name := Rest(path);
    RestShrinks(path);
    ResolveStep(view, 0, path);
    CompLenUnique(name, |name|);
    assert name[..|name|] == name;
  }

  lemma SlashInFront(path: string)
    requires path != "" && path[|path| - 1] != '/' && LastSlash(path, |path| - 1) == 0 && !PlainName(path)
    ensures path[0] == '/'
  {
    hide LastSlash;
  }

  /** The entry made for "/name" is not what "name" finds. */
  lemma SlashUnseen(view: seq<Node>, view': seq<Node>, path: string, ft: FType, dregLen: nat, linked: bool)
    requires path != "" && path[|path| - 1] != '/' && LastSlash(path, |path| - 1) == 0 && path[0] == '/'
    requires Created(view, view', 0, path, ft, dregLen, linked)
    requires forall k :: 0 <= k < |view[0].entries| ==> view[0].entries[k].inodeIndex != |view|
    ensures path[1..] != "" && Lookup(view'[0], path[1..]) != Found(|view|)
  {
    hide NewView, LastSlash, EntriesOf, InodesOf, BytesOf;
    assert view'[0] == view'[..|view|][0];
    var e, name := DirEntry(|view|, Pad(path)), path[1..];
    assert e.name[0] == '/' && name[0] == path[1];
    if linked { FirstMatchAppend(view[0].entries, e, name, 0); }
  }

  lemma NameFits(n: Node, name: string)
    ensures |name| <= 28 ==> NameMatches(Pad(name), name)
    ensures Lookup(n, name) == Missing(NoFile) ==> n.DirNode?
  {
  }

  /** Resolving a path is looking its name up in the directory its parent leads to. */
  lemma PathInParent(view: seq<Node>, path: string)
    requires path != "" && path[|path| - 1] != '/' && CreateParent(view, path).Hit?
    requires ParentEnd(path) != 0 || PlainName(path)
    requires CreateParent(view, path).child < |view|
    ensures var p, name := CreateParent(view, path).child, NewName(path);
            Resolve(view, 0, path) ==
            if |name| > 28 then Miss(InvalidPath)
            else match Lookup(view[p], name) case Missing(o) => Miss(o) case Found(c) => Hit(c, p)
  {
    hide Lookup, Resolve, ParentEnd, NewName, Rest, CompLen;
    var p, name := CreateParent(view, path).child, NewName(path);
    if ParentEnd(path) != 0 {
      SplitAround(path);
      ResolveBelow(view, 0, path[..ParentEnd(path) + 1], Below(path));
    }
    PlainIsName(path);
    CompLenUnique(name, |name|);
    assert name[..|name|] == name;
    ResolveStep(view, p, name);
  }

  lemma PlainIsName(path: string)
    requires path != "" && path[|path| - 1] != '/'
    ensures PlainName(path) ==> NewName(path) == path && ParentEnd(path) == 0
  {
  }

  /** The entries "." and ".." of the root name the root, and no other one does. */
  predicate Rooted(view: seq<Node>) {
    && view != [] && view[0].DirNode? && 2 <= |view[0].entries|
    && forall k :: 0 <= k < |view[0].entries| ==> (view[0].entries[k].inodeIndex == 0 <==> k < 2)
  }

  lemma TreeRooted(ino: seq<INode>, view: seq<Node>, live: set<nat>, pos: seq<nat>)
    requires Tree(ino, view, live, pos)
    ensures Rooted(view)
  {
    assert Linked(ino, view, live, pos, 0);
    var es := view[0].entries;
    forall k | 2 <= k < |es| ensures es[k].inodeIndex != 0 {
      assert ChildLink(ino, live, pos, 0, k, es[k].inodeIndex);
    }
  }

  /** A path of one character leads to the root exactly if lookups in the root find
      anything, and the character is '/' or begins one of its first two names. */
  predicate LeadsToRoot(root: Node, c: char)
    requires root.DirNode? && 2 <= |root.entries|
  {
    root.blocks >= 2
    && (c == '/' || NameMatches(root.entries[0].name, [c]) || NameMatches(root.entries[1].name, [c]))
  }

  lemma OneChar(view: seq<Node>, c: char)
    requires Rooted(view)
    ensures Resolve(view, 0, [c]).Hit? && Resolve(view, 0, [c]).child == 0 <==> LeadsToRoot(view[0], c)
  {
    var es, s := view[0].entries, [c];
    ResolveStep(view, 0, s);
    if c == '/' {
      CompLenUnique(s, 0);
      FirstMatchIs(es, "", 0, 0);
      SlashesUnique(s, 1);
      CompLenUnique("", 0);
      ResolveStep(view, 0, "");
    } else {
      CompLenUnique(s, 1);
      assert s[..1] == s;
    }
  }

  /** The directory fs2_create enters a file in is the one the parent part of its
      path leads to, exactly if no root is assumed for it (the parent part has
      two characters or more), there is no parent part, or its one character
      leads to the root. */
  lemma ParentAgrees(view: seq<Node>, path: string)
    requires path != "" && path[|path| - 1] != '/' && Rooted(view)
    ensures var made, meant := CreateParent(view, path), Target(view, ParentPart(path));
            (if made.Hit? then meant.Hit? && meant.child == made.child else meant == made)
            <==> ParentEnd(path) != 0 || ParentPart(path) == "" || LeadsToRoot(view[0], path[0])
  {
    hide Resolve, LastSlash, StripEnd, LeadsToRoot;
    if ParentEnd(path) == 0 && LastSlash(path, |path| - 1) != 0 {
      ShortParent(path);
      assert path[..1] == [path[0]];
      OneChar(view, path[0]);
    }
  }

  /** "a/b" is created in the root even where there is a directory a. */
  lemma ParentExample(view: seq<Node>, x: nat)
    requires view != [] && Lookup(view[0], "a") == Found(x)
    ensures CreateParent(view, "a/b") == Hit(0, 0) && NewName("a/b") == "b"
    ensures Target(view, ParentPart("a/b")) == Hit(x, 0)
  {
    hide Lookup;
    var path := "a/b";
    assert path[1] == '/' && LastSlash(path, 2) == 1 && StripEnd(path, 1) == 0;
    assert path[..1] == "a";
    CompLenUnique("a", 1);
    ResolveStep(view, 0, "a");
    assert "a"[..1] == "a";
  }

  /** The entries of a reachable directory name inodes of the table. */
  lemma EntriesInTable(h: HBlock, disk: seq<Block>, ino: seq<INode>, own: seq<Tag>, live: set<nat>, pos: seq<nat>,
                       p: nat)
    requires Consistent(h, disk, ino, own, live, pos) && p in live
    ensures p < |ino| && (View(disk, ino)[p].DirNode? ==>
              forall k :: 0 <= k < |View(disk, ino)[p].entries| ==> View(disk, ino)[p].entries[k].inodeIndex < |ino|)
  {
    hide HeaderOk, Owned, Nodes, Stored, Sized, View, NodeView;
    var view := View(disk, ino);
    assert Linked(ino, view, live, pos, p);
    if view[p].DirNode? {
      forall k | 0 <= k < |view[p].entries| ensures view[p].entries[k].inodeIndex < |ino| {
        if k >= 2 { assert ChildLink(ino, live, pos, p, k, view[p].entries[k].inodeIndex); }
      }
    }
  }

  lemma ParentInTable(h: HBlock, disk: seq<Block>, ino: seq<INode>, own: seq<Tag>, live: set<nat>, pos: seq<nat>,
                      path: string)
    requires Consistent(h, disk, ino, own, live, pos) && path != "" && CreateParent(View(disk, ino), path).Hit?
    ensures var view, p := View(disk, ino), CreateParent(View(disk, ino), path).child;
            p < |view| && (view[p].DirNode? ==>
              forall k :: 0 <= k < |view[p].entries| ==> view[p].entries[k].inodeIndex != |view|)
  {
    hide Resolve, ParentEnd;
    var view, p := View(disk, ino), CreateParent(View(disk, ino), path).child;
    if ParentEnd(path) != 0 { HitParent(ino, view, live, pos, 0, path[..ParentEnd(path) + 1]); }
    EntriesInTable(h, disk, ino, own, live, pos, p);
  }

  /** An entry whose name begins with '/', as fs2_create makes for "/name", is
      found under no name that a component of a path can be. */
  lemma LeadingSlashLost(e: DirEntry, name: string)
    requires e.name != "" && e.name[0] == '/' && PlainName(name)
    ensures !NameMatches(e.name, name)
  {
  }

  /** What fs2_create does for a path with a '/' in front and nowhere else. */
  lemma LeadingSlashName(name: string)
    requires PlainName(name)
    ensures NewName("/" + name) == "/" + name && ParentEnd("/" + name) == 0
  {
    var path := "/" + name;
    forall j | 1 <= j < |path| ensures path[j] != '/' { assert path[j] == name[j - 1]; }
    assert LastSlash(path, |path| - 1) == 0;
  }

  // -------------------------------------------------------------- after a removal

  /** No path leads to an inode that is not in the tree. */
  lemma NoPathTo(h: HBlock, disk: seq<Block>, ino: seq<INode>, own: seq<Tag>, live: set<nat>, pos: seq<nat>, x: nat,
                 path: string)
    requires Consistent(h, disk, ino, own, live, pos) && x !in live
    ensures Target(View(disk, ino), path).Hit? ==> Target(View(disk, ino), path).child != x
  {
    if Target(View(disk, ino), path).Hit? { TargetHit(h, disk, ino, own, live, pos, path); }
  }

  /** At most one of the entries behind the first two begins with this name, or
      one of the first two does. */
  predicate Clear(es: seq<DirEntry>, name: string) {
    forall i, j :: 0 <= i < j < |es| && NameMatches(es[i].name, name) && NameMatches(es[j].name, name) ==> i < 2
  }

  lemma {:induction false} FirstMatchIs(es: seq<DirEntry>, name: string, k: nat, r: nat)
    requires k <= r < |es| && NameMatches(es[r].name, name)
    requires forall m :: k <= m < r ==> !NameMatches(es[m].name, name)
    ensures FirstMatch(es, name, k) == r
    decreases r - k
  {
    if k < r { FirstMatchIs(es, name, k + 1, r); }
  }

  /** Removing entry k keeps what an unambiguous name finds, if that is not entry k. */
  lemma DroppedLookup(n: Node, k: nat, name: string)
    requires n.DirNode? && 2 <= k < |n.entries| && Clear(n.entries, name)
    requires Lookup(n, name).Found? && FirstMatch(n.entries, name, 0) != k
    ensures var last := n.entries[|n.entries| - 1];
            Lookup(DirNode(Dropped(n.entries, k, last), n.blocks), name) == Lookup(n, name)
  {
    hide EntriesOf, InodesOf, BytesOf;
    var es := n.entries;
    var last, m := |es| - 1, FirstMatch(es, name, 0);
    var es' := Dropped(es, k, es[last]);
    var m' := if m == last then k else m;
    forall j | 0 <= j < m' ensures !NameMatches(es'[j].name, name) {
      assert es'[j] == if j == k then es[last] else es[j];
    }
    FirstMatchIs(es', name, 0, m');
  }

  /** The walk passes through the inode x at no point. */
  predicate Avoids(view: seq<Node>, d: nat, comps: seq<string>, x: nat)
    decreases |comps|
  {
    d != x && (comps != [] && d < |view| && Lookup(view[d], comps[0]).Found? ==>
                 Avoids(view, Lookup(view[d], comps[0]).child, comps[1..], x))
  }

  /** Every name the walk looks up in directory p is unambiguous there. */
  predicate ClearIn(view: seq<Node>, p: nat, d: nat, comps: seq<string>)
    decreases |comps|
  {
    comps != [] && d < |view| && p < |view| ==>
      && (d == p && view[p].DirNode? ==> Clear(view[p].entries, comps[0]))
      && (Lookup(view[d], comps[0]).Found? ==> ClearIn(view, p, Lookup(view[d], comps[0]).child, comps[1..]))
  }

  /** Removing entry k of directory p, the link to x, keeps every path that does
      not go through x and looks up only unambiguous names in p. */
  lemma {:induction false} RemoveKeepsPaths(view: seq<Node>, view': seq<Node>, p: nat, k: nat, x: nat, d: nat,
                                            comps: seq<string>)
    requires |view'| == |view| && p < |view| && view[p].DirNode?
    requires 2 <= k < |view[p].entries| && view[p].entries[k].inodeIndex == x
    requires forall m :: 0 <= m < |view| && m != p && m != x ==> view'[m] == view[m]
    requires view'[p] == DirNode(Dropped(view[p].entries, k, view[p].entries[|view[p].entries| - 1]), view[p].blocks)
    requires comps != [] && Walk(view, d, comps).Hit? && Avoids(view, d, comps, x)
    requires ClearIn(view, p, d, comps)
    ensures Walk(view', d, comps) == Walk(view, d, comps)
    decreases |comps|
  {
    hide Clear, Dropped, EntriesOf, InodesOf, BytesOf;
    var c := Lookup(view[d], comps[0]).child;
    if d == p {
      var m := FirstMatch(view[p].entries, comps[0], 0);
      assert Avoids(view, c, comps[1..], x);
      DroppedLookup(view[p], k, comps[0]);
    }
    if |comps| > 1 { RemoveKeepsPaths(view, view', p, k, x, c, comps[1..]); }
  }

  // ------------------------------------------------------------------ writing

  /** A write puts the caller's bytes into the file, whatever they are, exactly if
      it needs no partial block behind the first: the last block is filled from
      the beginning of the caller's buffer. */
  lemma WriteFaithful(n: nat, cursor: nat)
    ensures (forall data: seq<Byte> :: |data| == n ==> Landed(data, cursor, n) == data)
        <==> n <= 4096 - cursor % 4096 || (cursor + n) % 4096 == 0
  {
    var t := TailStart(cursor, n);
    TailWhole(cursor, n);
    if t < n {
      var data: seq<Byte> := seq(n, i => if i < t then 0 else 1);
      assert |data| == n && Landed(data, cursor, n)[t] == data[0];
    }
  }

  lemma TailWhole(cursor: nat, n: nat)
    ensures TailStart(cursor, n) == n <==> n <= 4096 - cursor % 4096 || (cursor + n) % 4096 == 0
    ensures TailStart(cursor, n) == 0 <==> n == 0
  {
  }

  /** A region of no blocks is asked for exactly by a request for a multiple of 256
      blocks, none included.  A write that misses 256 blocks or more comes to ask
      for one: at once, or as its next request, once the first has been filled. */
  lemma EmptyRequest(bytes: nat)
    ensures Ceil(bytes) >= 256 ==>
              || RegionSize(bytes) == 0
              || (4096 * RegionSize(bytes) < bytes && RegionSize(bytes - 4096 * RegionSize(bytes)) == 0)
    ensures RegionSize(bytes) == 0 <==> Ceil(bytes) % 256 == 0
    ensures 0 < Ceil(bytes) < 256 ==> RegionSize(bytes) == Ceil(bytes)
  {
    hide Ceil, RegionSize;
    CeilIs(bytes);
    var sz := RegionSize(bytes);
    if Ceil(bytes) >= 256 && sz != 0 {
      CeilIs(bytes - 4096 * sz);
      CeilLess(bytes, sz);
      assert (Ceil(bytes) - sz) % 256 == 0;
    }
  }

  // -------------------------------------------------------------- persistence

  /** The disk alone determines the volume it holds. */
  lemma DiskDetermines(disk: seq<Block>, h: HBlock, ino: seq<INode>, own: seq<Tag>, live: set<nat>, pos: seq<nat>,
                       h': HBlock, ino': seq<INode>, own': seq<Tag>, live': set<nat>, pos': seq<nat>)
    requires Consistent(h, disk, ino, own, live, pos) && Consistent(h', disk, ino', own', live', pos')
    ensures h' == h && ino' == ino && View(disk, ino') == View(disk, ino)
  {
    forall i | 0 <= i < |ino| ensures ino'[i] == ino[i] {
      assert NodeOnDisk(h, disk, i) == ino[i];
      assert NodeOnDisk(h', disk, i) == ino'[i];
    }
    assert ino' == ino;
  }

  // ----------------------------------------------------------------- instances

  /** 4097 bytes written at the start of a file: the last one is not the caller's
      last byte but the first again. */
  lemma TailExample(data: seq<Byte>)
    requires |data| == 4097
    ensures Landed(data, 0, 4097) == data[..4096] + [data[0]]
    ensures data[4096] != data[0] ==> Landed(data, 0, 4097) != data
  {
    assert TailStart(0, 4097) == 4096;
    assert data[..1] == [data[0]];
    assert Landed(data, 0, 4097)[4096] == data[0];
  }

  /** Looking for "a" in a directory whose only file is "ab" finds that file. */
  lemma PrefixExample(dot: DirEntry, dots: DirEntry, x: nat)
    requires "." <= dot.name && ".." <= dots.name
    ensures var es := [dot, dots, DirEntry(x, Pad("ab"))];
            Lookup(DirNode(es, 2), "a") == Found(x) && ExactMatch(es, "a", 0) == 3
  {
    var es := [dot, dots, DirEntry(x, Pad("ab"))];
    assert Pad("ab")[1] == 'b' && Pad("a")[1] == '\0';
    assert dot.name[0] == "."[0] && dots.name[0] == ".."[0] && Pad("a")[0] == 'a';
    assert "a"[0] == 'a';
    assert !NameMatches(dot.name, "a") && !NameMatches(dots.name, "a") && NameMatches(es[2].name, "a");
    FirstMatchIs(es, "a", 0, 2);
  }

  /** Writing nothing to a file without blocks, or 256 blocks' worth of bytes, comes
      to be given a region of no blocks. */
  lemma RegionExample(h: HBlock, nd: INode)
    requires Given(nd, File, h.nextBlock, h.dregLen)
    ensures GoesHollow(h, nd, 0, 0) && GoesHollow(h, nd, 256 * 4096, 0)
  {
  }
}
