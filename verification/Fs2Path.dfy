/** Path resolution of CWFS2 as a function of the tree: '/'-separated components
    looked up one directory after the other from the root. */
module Fs2Path {
  import opened Fs2Layout
  import opened Fs2State

  datatype PathResult = Hit(child: nat, parent: nat) | Miss(why: Outcome)

  /** Length of the first component of s. */
  function CompLen(s: string): (i: nat)
    ensures i <= |s| && (i < |s| ==> s[i] == '/')
    ensures forall j :: 0 <= j < i ==> s[j] != '/'
  {
    if s == "" || s[0] == '/' then 0 else 1 + CompLen(s[1..])
  }

  /** Number of '/' at the front of s. */
  function Slashes(s: string): (i: nat)
    ensures i <= |s| && (i < |s| ==> s[i] != '/')
    ensures forall j :: 0 <= j < i ==> s[j] == '/'
  {
    if s == "" || s[0] != '/' then 0 else 1 + Slashes(s[1..])
  }

  /** What is left of s after its first component and the '/'s behind it. */
  function Rest(s: string): (r: string)
    ensures CompLen(s) < |s| ==> |r| < |s|
  {
    var i := CompLen(s);
    s[i + Slashes(s[i..])..]
  }

  function Resolve(view: seq<Node>, d: nat, s: string): PathResult
    decreases |s|
  {
    var i := CompLen(s);
    if i > 28 then Miss(InvalidPath)
    else if d >= |view| then Miss(NoFile)
    else match Lookup(view[d], s[..i])
      case Missing(o) => Miss(o)
      case Found(c) => if i == |s| then Hit(c, d) else Resolve(view, c, Rest(s))
  }

  /** The inode a path names; the empty path is the root. */
  function Target(view: seq<Node>, path: string): PathResult {
    if path == "" then Hit(0, 0) else Resolve(view, 0, path)
  }

  /** One turn of the loop over the components. */
  lemma ResolveStep(view: seq<Node>, d: nat, s: string)
    requires d < |view|
    ensures CompLen(s) > 28 ==> Resolve(view, d, s) == Miss(InvalidPath)
    ensures CompLen(s) <= 28 ==>
              var l := Lookup(view[d], s[..CompLen(s)]);
              && (l.Missing? ==> Resolve(view, d, s) == Miss(l.why))
              && (l.Found? && CompLen(s) == |s| ==> Resolve(view, d, s) == Hit(l.child, d))
              && (l.Found? && CompLen(s) < |s| ==> Resolve(view, d, s) == Resolve(view, l.child, Rest(s)))
  {
  }

  // The two scanning loops of fs2_find_file.

  method ScanComponent(path: string, cursor: nat) returns (i: nat)
    requires cursor <= |path|
    ensures i == CompLen(path[cursor..])
  {
    i := 0;
    while cursor + i < |path| && path[cursor + i] != '/'
      invariant cursor + i <= |path| && i <= CompLen(path[cursor..])
    {
      i := i + 1;
    }
  }

  method ScanSlashes(path: string, cursor: nat, start: nat) returns (i: nat)
    requires cursor <= |path| && start == CompLen(path[cursor..]) < |path| - cursor
    ensures start < i <= |path| - cursor && path[cursor + i..] == Rest(path[cursor..])
  {
    hide CompLen, Slashes, Rest;
    i := start;
    ghost var s := path[cursor..];
    ghost var t := s[start..];
    while cursor + i < |path| && path[cursor + i] == '/'
      invariant start <= i && cursor + i <= |path| && forall j :: 0 <= j < i - start ==> t[j] == '/'
    {
      assert t[i - start] == path[cursor + i];
      i := i + 1;
    }
    assert i - start < |t| ==> t[i - start] == path[cursor + i];
    SlashesUnique(t, i - start);
    RestIs(s, start, i - start);
  }

  // ------------------------------------------------- parent and name of a path

  /** Index of the last '/' of a path, or 0 if there is none behind the first
      character. */
  function LastSlash(path: string, k: nat): (s: nat)
    requires k < |path|
    ensures s <= k && (s == 0 || path[s] == '/')
    ensures forall j :: s < j <= k ==> path[j] != '/'
  {
    if k == 0 || path[k] == '/' then k else LastSlash(path, k - 1)
  }

  /** Where the '/'s ending at index s begin: the last character before them, or 0. */
  function StripEnd(path: string, s: nat): (t: nat)
    requires s < |path|
    ensures t <= s && (t == 0 || path[t] != '/')
    ensures forall j :: t < j <= s ==> path[j] == '/'
  {
    if s == 0 || path[s] != '/' then s else StripEnd(path, s - 1)
  }

  /** The name fs2_create gives the new file. */
  function NewName(path: string): string
    requires path != ""
  {
    var s := LastSlash(path, |path| - 1);
    if s == 0 then path else path[s + 1..]
  }

  /** The last index of the parent's path, or 0: then the parent is the root,
      even where the parent's path is one character long. */
  function ParentEnd(path: string): (t: nat)
    requires path != ""
    ensures t < |path|
  {
    var s := LastSlash(path, |path| - 1);
    StripEnd(path, s)
  }

  lemma CompLenUnique(s: string, i: nat)
    requires i <= |s| && (i < |s| ==> s[i] == '/') && forall j :: 0 <= j < i ==> s[j] != '/'
    ensures CompLen(s) == i
  {
  }

  lemma SlashesUnique(s: string, i: nat)
    requires i <= |s| && (i < |s| ==> s[i] != '/') && forall j :: 0 <= j < i ==> s[j] == '/'
    ensures Slashes(s) == i
  {
  }

  /** What follows a run of '/'. */
  lemma RestOfSlashes(mid: string, name: string)
    requires mid != "" && (forall j :: 0 <= j < |mid| ==> mid[j] == '/') && (name != "" ==> name[0] != '/')
    ensures CompLen(mid + name) == 0 && Rest(mid + name) == name
  {
    var b := mid + name;
    CompLenUnique(b, 0);
    assert b[0..] == b;
    SlashesUnique(b, |mid|);
  }

  lemma CompExtends(a: string, b: string)
    requires b != "" && b[0] == '/'
    ensures CompLen(a + b) == CompLen(a) && (a + b)[..CompLen(a)] == a[..CompLen(a)]
  {
    CompLenUnique(a + b, CompLen(a));
  }

  lemma SlashesExtend(a: string, b: string)
    requires a != "" && a[|a| - 1] != '/'
    ensures Slashes(a + b) == Slashes(a) < |a|
  {
    SlashesUnique(a + b, Slashes(a));
  }

  lemma RestExtends(a: string, b: string)
    requires a != "" && a[|a| - 1] != '/' && CompLen(a) < |a| && b != "" && b[0] == '/'
    ensures Rest(a) != "" && Rest(a)[|Rest(a)| - 1] == a[|a| - 1] && Rest(a + b) == Rest(a) + b
  {
    hide Rest, CompLen, Slashes;
    var i := CompLen(a);
    var tail := a[i..];
    assert tail[|tail| - 1] == a[|a| - 1];
    CompExtends(a, b);
    SlashesExtend(tail, b);
    var k := Slashes(tail);
    RestIs(a, i, k);
    assert (a + b)[i..] == tail + b;
    RestIs(a + b, i, k);
    assert (a + b)[i + k..] == a[i + k..] + b;
  }

  lemma RestJumps(a: string, b: string)
    requires CompLen(a) == |a| && b != "" && b[0] == '/'
    ensures Rest(a + b) == Rest(b)
  {
    hide Rest, CompLen, Slashes;
    CompExtends(a, b);
    assert (a + b)[|a|..] == b;
    CompLenUnique(b, 0);
    assert b[0..] == b;
    RestIs(a + b, |a|, Slashes(b));
    RestIs(b, 0, Slashes(b));
    assert (a + b)[|a| + Slashes(b)..] == b[Slashes(b)..];
  }

  lemma RestIs(s: string, i: nat, k: nat)
    requires CompLen(s) == i && Slashes(s[i..]) == k
    ensures Rest(s) == s[i + k..]
  {
  }

  lemma RestShrinks(s: string)
    ensures CompLen(s) < |s| ==> |Rest(s)| < |s|
  {
  }

  /** The directory fs2_create enters the new file in. */
  function CreateParent(view: seq<Node>, path: string): PathResult
    requires path != ""
  {
    if ParentEnd(path) == 0 then Hit(0, 0) else Resolve(view, 0, path[..ParentEnd(path) + 1])
  }

  /** Resolving a path below a resolved one. */
  lemma {:induction false} ResolveBelow(view: seq<Node>, d: nat, a: string, b: string)
    requires a != "" && a[|a| - 1] != '/' && b != "" && b[0] == '/'
    requires Resolve(view, d, a).Hit?
    ensures Resolve(view, d, a + b) == Resolve(view, Resolve(view, d, a).child, Rest(b))
    decreases |a|
  {
    hide CompLen, Rest, Lookup;
    var i := CompLen(a);
    CompExtends(a, b);
    if i == |a| {
      RestJumps(a, b);
    } else {
      RestExtends(a, b);
      ResolveBelow(view, Lookup(view[d], a[..i]).child, Rest(a), b);
    }
  }

  /** A path whose parent resolves but which itself is not found: the parent is a
      directory without such a name. */
  lemma MissingBelow(view: seq<Node>, path: string)
    requires path != "" && path[|path| - 1] != '/' && ParentEnd(path) != 0
    requires Resolve(view, 0, path) == Miss(NoFile) && Resolve(view, 0, path[..ParentEnd(path) + 1]).Hit?
    ensures var p := Resolve(view, 0, path[..ParentEnd(path) + 1]).child;
            p < |view| ==>
              view[p].DirNode? && |NewName(path)| <= 28 && Lookup(view[p], NewName(path)) == Missing(NoFile)
  {
    hide ParentEnd, NewName, CompLen, Rest, Below;
    var p, name := Resolve(view, 0, path[..ParentEnd(path) + 1]).child, NewName(path);
    var b := Below(path);
    SplitAround(path);
    ResolveBelow(view, 0, path[..ParentEnd(path) + 1], b);
    CompLenUnique(name, |name|);
    assert name[..|name|] == name;
  }

  /** The part of a path behind its parent: '/'s and the name. */
  function Below(path: string): string
    requires path != ""
  {
    path[ParentEnd(path) + 1..]
  }

  /** path = parent, one or more '/', name. */
  lemma SplitAround(path: string)
    requires path != "" && path[|path| - 1] != '/' && ParentEnd(path) != 0
    ensures path == path[..ParentEnd(path) + 1] + Below(path) && path[ParentEnd(path)] != '/'
    ensures Below(path) != "" && Below(path)[0] == '/'
    ensures Rest(Below(path)) == NewName(path) && NewName(path) != ""
    ensures forall j :: 0 <= j < |NewName(path)| ==> NewName(path)[j] != '/'
  {
    hide CompLen, Rest, Slashes, StripEnd, LastSlash;
    var s, t := LastSlash(path, |path| - 1), ParentEnd(path);
    SlashesBetween(path);
    RestFrom(path, t + 1, s + 1);
  }

  /** The rest of a path from a run of '/' on is what stands behind the run. */
  lemma RestFrom(path: string, t: nat, s: nat)
    requires t < s < |path| && AllSlashes(path[t..s]) && path[s] != '/'
    ensures Rest(path[t..]) == path[s..] && path == path[..t] + path[t..]
  {
    hide CompLen, Rest, Slashes;
    assert path[t..] == path[t..s] + path[s..];
    RestOfSlashes(path[t..s], path[s..]);
  }

  predicate AllSlashes(s: string) { forall j :: 0 <= j < |s| ==> s[j] == '/' }

  /** Between the parent part and the name there are '/'s and nothing else. */
  lemma SlashesBetween(path: string)
    requires path != "" && path[|path| - 1] != '/' && ParentEnd(path) != 0
    ensures var s, t := LastSlash(path, |path| - 1), ParentEnd(path);
            && t < s < |path| - 1 && path[t] != '/' && path[t + 1] == '/'
            && AllSlashes(path[t + 1..s + 1]) && '/' !in path[s + 1..]
  {
    hide StripEnd, LastSlash;
    assert path[LastSlash(path, |path| - 1)] == '/';
  }

  /** The part of a path that names its parent: what stands before the '/'s in
      front of the name, or nothing. */
  function ParentPart(path: string): string
    requires path != ""
  {
    if LastSlash(path, |path| - 1) == 0 then "" else path[..ParentEnd(path) + 1]
  }

  /** One character, s times '/', and a name. */
  lemma OneThenSlashes(a: string, mid: string, name: string)
    requires |a| == 1 && mid != "" && name != "" && name[0] != '/'
    requires forall j :: 0 <= j < |mid| ==> mid[j] == '/'
    ensures CompLen(a + (mid + name)) <= 1 && Rest(a + (mid + name)) == name
  {
    hide CompLen, Slashes, Rest;
    if a[0] == '/' { SlashThenSlashes(a, mid, name); } else { OtherThenSlashes(a, mid, name); }
  }

  lemma SlashThenSlashes(a: string, mid: string, name: string)
    requires a == "/" && name != "" && name[0] != '/' && forall j :: 0 <= j < |mid| ==> mid[j] == '/'
    ensures CompLen(a + (mid + name)) == 0 && Rest(a + (mid + name)) == name
  {
    hide CompLen, Slashes, Rest;
    RestOfSlashes(a + mid, name);
    assert a + (mid + name) == (a + mid) + name;
  }

  lemma OtherThenSlashes(a: string, mid: string, name: string)
    requires |a| == 1 && a[0] != '/' && mid != "" && (forall j :: 0 <= j < |mid| ==> mid[j] == '/')
    requires name != "" && name[0] != '/'
    ensures CompLen(a + (mid + name)) == 1 && Rest(a + (mid + name)) == name
  {
    hide CompLen, Slashes, Rest;
    OneCharacter(a);
    RestOfSlashes(mid, name);
    CompExtends(a, mid + name);
    RestJumps(a, mid + name);
  }

  lemma OneCharacter(a: string)
    requires |a| == 1 && a[0] != '/'
    ensures CompLen(a) == 1
  {
    CompLenUnique(a, 1);
  }

  /** A path whose parent part is one character long: the first component is that
      character, or empty where it is a '/', and the name comes right behind. */
  lemma ShortParent(path: string)
    requires path != "" && path[|path| - 1] != '/' && ParentEnd(path) == 0 && LastSlash(path, |path| - 1) != 0
    ensures CompLen(path) <= 1 < |path| && Rest(path) == NewName(path) && ParentPart(path) == path[..1]
    ensures NewName(path) != "" && forall j :: 0 <= j < |NewName(path)| ==> NewName(path)[j] != '/'
  {
    hide CompLen, Slashes, Rest, LastSlash, StripEnd;
    var s := LastSlash(path, |path| - 1);
    var mid, name := path[1..s + 1], path[s + 1..];
    assert path == path[..1] + (mid + name);
    OneThenSlashes(path[..1], mid, name);
  }

  /** A path with a '/' in front and nowhere else keeps it in the new name. */
  lemma LeadingSlash(path: string)
    requires path != "" && path[|path| - 1] != '/' && LastSlash(path, |path| - 1) == 0 && path[0] == '/'
    ensures NewName(path) == path && ParentEnd(path) == 0 && CompLen(path) == 0 && Rest(path) == path[1..] != ""
    ensures forall j :: 1 <= j < |path| ==> path[j] != '/'
  {
    hide CompLen, Slashes, Rest, LastSlash;
    CompLenUnique(path, 0);
    assert path[0..] == path;
    SlashesUnique(path, 1);
    RestIs(path, 0, 1);
  }

  // The two loops of fs2_create over its copy of the path.

  method FindSplit(path: string) returns (split: nat)
    requires path != ""
    ensures split == LastSlash(path, |path| - 1)
  {
    split := |path| - 1;
    while split > 0 && path[split] != '/'
      invariant split < |path| && LastSlash(path, |path| - 1) == LastSlash(path, split)
    {
      split := split - 1;
    }
  }

  method StripSlashes(path: string, start: nat) returns (split: nat)
    requires start < |path|
    ensures split == StripEnd(path, start)
  {
    split := start;
    while split > 0 && path[split] == '/'
      invariant split <= start && StripEnd(path, start) == StripEnd(path, split)
    {
      split := split - 1;
    }
  }
}
