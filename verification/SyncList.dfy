/** Collecting the files of a local directory tree (core/adb/file_sync_client.c,
    local_build_list and mkcopyinfo). Readable trees without links to directories. */
module SyncList {
  import opened Bytes
  import opened SyncWire

  const PATH_MAX: nat := 4096
  const SLASH: Byte := 0x2F

  /** What lstat says of a name that is not a directory; the entries of one that is. */
  datatype Node = Leaf(mode: nat, time: nat, size: nat) | Dir(children: seq<Child>)
  datatype Child = Child(name: Text, node: Node)

  datatype CopyInfo = CopyInfo(src: Text, dst: Text, time: nat, mode: nat, size: nat)

  predicate IsDot(name: Text) { name == [0x2E] || name == [0x2E, 0x2E] }

  predicate Wanted(n: Node) { n.Leaf? && (IsReg(n.mode) || IsLnk(n.mode)) }

  // --------------------------------------------------------------- the reference

  /** A file of the tree: its path relative to the root, and what lstat says of it. */
  datatype Rel = Rel(path: Text, leaf: Node)

  /** All files and links of a tree with their relative paths. */
  function RelFiles(cs: seq<Child>): seq<Rel>
    decreases cs, 1
  {
    if cs == [] then [] else RelOf(cs[0]) + RelFiles(cs[1..])
  }

  function RelOf(c: Child): seq<Rel>
    decreases c, 0
  {
    if IsDot(c.name) then []
    else match c.node
      case Dir(children) => Under(c.name + [SLASH], RelFiles(children))
      case Leaf(_, _, _) => if Wanted(c.node) then [Rel(c.name, c.node)] else []
  }

  function Under(prefix: Text, rs: seq<Rel>): (r: seq<Rel>)
    ensures |r| == |rs|
    ensures forall i :: 0 <= i < |rs| ==> r[i] == Rel(prefix + rs[i].path, rs[i].leaf)
  {
    if rs == [] then [] else [Rel(prefix + rs[0].path, rs[0].leaf)] + Under(prefix, rs[1..])
  }

  /** The list for files at `rs`: source and destination get the same relative path; a path
      too long for the client's buffer is left out. */
  function Render(l: Text, r: Text, rs: seq<Rel>): seq<CopyInfo> {
    if rs == [] then []
    else
      var f := rs[0];
      (if |l| + |f.path| + 1 <= PATH_MAX && f.leaf.Leaf?
       then [CopyInfo(l + f.path, r + f.path, f.leaf.time, f.leaf.mode, f.leaf.size)] else [])
      + Render(l, r, rs[1..])
  }

  /** The list the traversal should produce, up to order. */
  function Listed(l: Text, r: Text, cs: seq<Child>): seq<CopyInfo> {
    Render(l, r, RelFiles(cs))
  }

  lemma {:induction false} RenderConcat(l: Text, r: Text, a: seq<Rel>, b: seq<Rel>)
    ensures Render(l, r, a + b) == Render(l, r, a) + Render(l, r, b)
    decreases |a|
  {
    if a == [] {
      assert a + b == b;
    } else {
      assert (a + b)[1..] == a[1..] + b;
      RenderConcat(l, r, a[1..], b);
    }
  }

  /** Descending into a directory moves its name from the relative paths to both roots. */
  lemma {:induction false} RenderUnder(l: Text, r: Text, p: Text, rs: seq<Rel>)
    ensures Render(l, r, Under(p, rs)) == Render(l + p, r + p, rs)
    decreases |rs|
  {
    if rs != [] {
      RenderUnder(l, r, p, rs[1..]);
      assert Under(p, rs)[1..] == Under(p, rs[1..]);
      assert l + (p + rs[0].path) == l + p + rs[0].path;
      assert r + (p + rs[0].path) == r + p + rs[0].path;
    }
  }

  lemma {:induction false} RenderTooLong(l: Text, r: Text, rs: seq<Rel>)
    requires |l| + 1 > PATH_MAX
    ensures Render(l, r, rs) == []
    decreases |rs|
  {
    if rs != [] {
      RenderTooLong(l, r, rs[1..]);
    }
  }

  lemma {:induction false} RelFilesSnoc(cs: seq<Child>, c: Child)
    ensures RelFiles(cs + [c]) == RelFiles(cs) + RelOf(c)
    decreases |cs|
  {
    if cs == [] {
      assert cs + [c] == [c];
      assert RelFiles([c]) == RelOf(c) + RelFiles([]);
    } else {
      assert (cs + [c])[1..] == cs[1..] + [c];
      RelFilesSnoc(cs[1..], c);
      assert RelOf(cs[0]) + (RelFiles(cs[1..]) + RelOf(c)) == RelOf(cs[0]) + RelFiles(cs[1..]) + RelOf(c);
    }
  }

  // ---------------------------------------------------------- each file exactly once

  /** Names as readdir delivers them: distinct, not empty, without a slash. */
  predicate Names(cs: seq<Child>)
    decreases cs
  {
    && (forall i, j :: 0 <= i < j < |cs| ==> cs[i].name != cs[j].name)
    && (forall i :: 0 <= i < |cs| ==> cs[i].name != [] && SLASH !in cs[i].name
                                      && (cs[i].node.Dir? ==> Names(cs[i].node.children)))
  }

  /** A path starts with this name as its first component. */
  predicate StartsWith(p: Text, name: Text) {
    name <= p && (|p| == |name| || p[|name|] == SLASH)
  }

  lemma NotLonger(p: Text, a: Text, b: Text)
    requires StartsWith(p, a) && b <= p && SLASH !in b
    ensures |b| <= |a|
  {
  }

  lemma FirstComponent(p: Text, a: Text, b: Text)
    requires StartsWith(p, a) && StartsWith(p, b) && SLASH !in a && SLASH !in b
    ensures a == b
  {
    NotLonger(p, a, b);
    NotLonger(p, b, a);
  }

  predicate Distinct(rs: seq<Rel>) {
    forall i, j :: 0 <= i < j < |rs| ==> rs[i].path != rs[j].path
  }

  lemma RelOfStarts(c: Child)
    ensures forall f :: f in RelOf(c) ==> StartsWith(f.path, c.name)
  {
  }

  lemma {:induction false} RelFilesStart(cs: seq<Child>, f: Rel) returns (k: nat)
    requires f in RelFiles(cs)
    ensures k < |cs| && StartsWith(f.path, cs[k].name)
    decreases |cs|
  {
    if f in RelOf(cs[0]) {
      RelOfStarts(cs[0]);
      k := 0;
    } else {
      k := RelFilesStart(cs[1..], f);
      k := k + 1;
    }
  }

  lemma ConcatDistinct(a: seq<Rel>, b: seq<Rel>)
    requires Distinct(a) && Distinct(b)
    requires forall x, y :: x in a && y in b ==> x.path != y.path
    ensures Distinct(a + b)
  {
    forall i, j | 0 <= i < j < |a + b| ensures (a + b)[i].path != (a + b)[j].path {
      if i < |a| <= j {
        assert a[i] in a && b[j - |a|] in b;
      }
    }
  }

  /** No file of a well-named tree is listed twice. */
  lemma {:induction false} EachFileOnce(cs: seq<Child>)
    requires Names(cs)
    ensures Distinct(RelFiles(cs))
    decreases cs, 1
  {
    if cs != [] {
      EachFileOnceOf(cs[0]);
      EachFileOnce(cs[1..]);
      forall x, y | x in RelOf(cs[0]) && y in RelFiles(cs[1..]) ensures x.path != y.path {
        RelOfStarts(cs[0]);
        var k := RelFilesStart(cs[1..], y);
        if x.path == y.path {
          FirstComponent(x.path, cs[0].name, cs[1..][k].name);
        }
      }
      ConcatDistinct(RelOf(cs[0]), RelFiles(cs[1..]));
    }
  }

  lemma {:induction false} EachFileOnceOf(c: Child)
    requires c.node.Dir? ==> Names(c.node.children)
    ensures Distinct(RelOf(c))
    decreases c, 0
  {
    if c.node.Dir? && !IsDot(c.name) {
      EachFileOnce(c.node.children);
      var rs := RelFiles(c.node.children);
      var p := c.name + [SLASH];
      forall i, j | 0 <= i < j < |rs| ensures Under(p, rs)[i].path != Under(p, rs)[j].path {
        assert (p + rs[i].path)[|p|..] == rs[i].path;
        assert (p + rs[j].path)[|p|..] == rs[j].path;
      }
    }
  }

  // ------------------------------------------------------------ what the reference lists

  /** The length of the first component of a path. */
  function FirstSlash(p: Text): (i: nat)
    ensures i <= |p| && SLASH !in p[..i] && (i < |p| ==> p[i] == SLASH)
  {
    if p == [] || p[0] == SLASH then 0
    else
      var i := FirstSlash(p[1..]) + 1;
      assert p[..i] == [p[0]] + p[1..][..i - 1];
      i
  }

  /** The place of a name in a directory, or -1. */
  function Place(cs: seq<Child>, name: Text): (k: int)
    ensures -1 <= k < |cs| && (k >= 0 ==> cs[k].name == name)
    ensures k < 0 ==> forall i :: 0 <= i < |cs| ==> cs[i].name != name
  {
    if cs == [] then -1
    else if cs[0].name == name then 0
    else
      var k := Place(cs[1..], name);
      if k < 0 then -1 else k + 1
  }

  /** Walking down a path by the names of its components, which are not dots. */
  function At(cs: seq<Child>, p: Text): Option<Node>
    decreases |p|
  {
    var i := FirstSlash(p);
    var k := Place(cs, p[..i]);
    if k < 0 || IsDot(p[..i]) then None
    else if i == |p| then Some(cs[k].node)
    else if cs[k].node.Dir? then At(cs[k].node.children, p[i + 1..])
    else None
  }

  lemma {:induction false} InRelFiles(cs: seq<Child>, f: Rel)
    ensures f in RelFiles(cs) <==> exists k :: 0 <= k < |cs| && f in RelOf(cs[k])
    decreases |cs|
  {
    if cs != [] {
      InRelFiles(cs[1..], f);
      assert forall k :: 0 < k < |cs| ==> cs[k] == cs[1..][k - 1];
      if k :| 0 <= k < |cs[1..]| && f in RelOf(cs[1..][k]) { assert f in RelOf(cs[k + 1]); }
    }
  }

  lemma InUnder(prefix: Text, rs: seq<Rel>, f: Rel)
    ensures f in Under(prefix, rs) <==> prefix <= f.path && Rel(f.path[|prefix|..], f.leaf) in rs
  {
    if f in Under(prefix, rs) {
      var i :| 0 <= i < |rs| && Under(prefix, rs)[i] == f;
      assert (prefix + rs[i].path)[|prefix|..] == rs[i].path;
      assert rs[i] in rs;
    }
    if prefix <= f.path && Rel(f.path[|prefix|..], f.leaf) in rs {
      var i :| 0 <= i < |rs| && rs[i] == Rel(f.path[|prefix|..], f.leaf);
      assert prefix + f.path[|prefix|..] == f.path;
      assert Under(prefix, rs)[i] == f;
    }
  }

  /** What one entry of a directory stands for is at its own name. */
  lemma RelOfAt(cs: seq<Child>, k: nat, f: Rel)
    requires Names(cs) && k < |cs| && f in RelOf(cs[k])
    ensures FirstSlash(f.path) == |cs[k].name| && Place(cs, f.path[..|cs[k].name|]) == k && !IsDot(cs[k].name)
    ensures cs[k].node.Leaf? ==> f == Rel(cs[k].name, cs[k].node)
  {
    RelOfStarts(cs[k]);
    FirstComponent(f.path, cs[k].name, f.path[..FirstSlash(f.path)]);
  }

  /** One step of the walk is one step of the reference. */
  lemma EntryExactly(cs: seq<Child>, k: nat, f: Rel)
    requires k < |cs| && cs[k].name == f.path[..FirstSlash(f.path)]
    ensures var c, i := cs[k], FirstSlash(f.path);
      f in RelOf(c) <==>
        && !IsDot(c.name)
        && if i == |f.path| then c.node == f.leaf && Wanted(c.node)
           else c.node.Dir? && Rel(f.path[i + 1..], f.leaf) in RelFiles(c.node.children)
  {
    var c, i := cs[k], FirstSlash(f.path);
    assert i == |f.path| ==> f.path[..i] == f.path;
    if c.node.Dir? {
      InUnder(c.name + [SLASH], RelFiles(c.node.children), f);
      if i < |f.path| { assert c.name + [SLASH] == f.path[..i + 1]; }
    }
  }

  /** The reference lists exactly the files and links that a walk down their path finds. */
  lemma {:induction false} ListedExactly(cs: seq<Child>, f: Rel)
    requires Names(cs)
    ensures f in RelFiles(cs) <==> At(cs, f.path) == Some(f.leaf) && Wanted(f.leaf)
    decreases |f.path|
  {
    InRelFiles(cs, f);
    var i := FirstSlash(f.path);
    var k := Place(cs, f.path[..i]);
    if k >= 0 {
      EntryExactly(cs, k, f);
      if i < |f.path| && cs[k].node.Dir? {
        ListedExactly(cs[k].node.children, Rel(f.path[i + 1..], f.leaf));
      }
    }
    forall j | 0 <= j < |cs| && f in RelOf(cs[j]) ensures j == k {
      RelOfAt(cs, j, f);
    }
  }

  // -------------------------------------------------------------------- the program

  /** A directory waiting to be read: both paths, and which entry it is. */
  datatype Pending = Pending(src: Text, dst: Text, index: nat)

  /** What the waiting directories will still contribute. */
  ghost function Owed(dirs: seq<Pending>, cs: seq<Child>): multiset<CopyInfo>
    requires forall d :: d in dirs ==> d.index < |cs| && cs[d.index].node.Dir?
    decreases |dirs|
  {
    if dirs == [] then multiset{}
    else multiset(Listed(dirs[0].src, dirs[0].dst, cs[dirs[0].index].node.children)) + Owed(dirs[1..], cs)
  }

  lemma OwedCons(d: Pending, dirs: seq<Pending>, cs: seq<Child>)
    requires forall x :: x in [d] + dirs ==> x.index < |cs| && cs[x.index].node.Dir?
    ensures Owed([d] + dirs, cs) ==
      multiset(Listed(d.src, d.dst, cs[d.index].node.children)) + Owed(dirs, cs)
  {
    assert ([d] + dirs)[1..] == dirs;
    assert d in [d] + dirs;
  }

  /** What one directory entry contributes to the list. */
  lemma ListedStep(l: Text, r: Text, cs: seq<Child>, i: nat)
    requires i < |cs|
    ensures Listed(l, r, cs[..i + 1]) == Listed(l, r, cs[..i]) + Render(l, r, RelOf(cs[i]))
  {
    hide Render, RelFiles, RelOf;
    assert cs[..i + 1] == cs[..i] + [cs[i]];
    RelFilesSnoc(cs[..i], cs[i]);
    RenderConcat(l, r, RelFiles(cs[..i]), RelOf(cs[i]));
  }

  lemma RenderLeaf(l: Text, r: Text, c: Child)
    requires c.node.Leaf? && !IsDot(c.name)
    ensures Render(l, r, RelOf(c)) ==
      if Wanted(c.node) && |l| + |c.name| + 1 <= PATH_MAX
      then [CopyInfo(l + c.name, r + c.name, c.node.time, c.node.mode, c.node.size)] else []
  {
  }

  lemma RenderDir(l: Text, r: Text, c: Child)
    requires c.node.Dir? && !IsDot(c.name)
    ensures Render(l, r, RelOf(c)) == Listed(l + (c.name + [SLASH]), r + (c.name + [SLASH]), c.node.children)
    ensures |l| + |c.name| + 1 > PATH_MAX ==> Render(l, r, RelOf(c)) == []
  {
    hide RelFiles, Render;
    var p := c.name + [SLASH];
    RenderUnder(l, r, p, RelFiles(c.node.children));
    if |l| + |c.name| + 1 > PATH_MAX {
      RenderTooLong(l + p, r + p, RelFiles(c.node.children));
    }
  }

  /** local_build_list: read the directory, prepending files to the list and directories to a
      list of their own, then descend into those. */
  method LocalBuildList(files0: seq<CopyInfo>, l: Text, r: Text, cs: seq<Child>)
    returns (files: seq<CopyInfo>)
    ensures multiset(files) == multiset(files0) + multiset(Listed(l, r, cs))
    decreases cs
  {
    hide Listed, Render, RelOf, Owed;
    var dirs;
    files, dirs := ReadDirectory(files0, l, r, cs);
    while dirs != []
      invariant forall d :: d in dirs ==> d.index < |cs| && cs[d.index].node.Dir?
      invariant multiset(files) + Owed(dirs, cs) == multiset(files0) + multiset(Listed(l, r, cs))
      decreases |dirs|
    {
      var ci := dirs[0];
      assert dirs == [ci] + dirs[1..];
      OwedCons(ci, dirs[1..], cs);
      var k := ci.index;
      files := LocalBuildList(files, ci.src, ci.dst, cs[k].node.children);
      dirs := dirs[1..];
    }
    assert Owed([], cs) == multiset{} by { OwedNothing(cs); }
  }

  lemma OwedNothing(cs: seq<Child>)
    ensures Owed([], cs) == multiset{}
  {
  }

  /** The readdir loop. */
  method ReadDirectory(files0: seq<CopyInfo>, l: Text, r: Text, cs: seq<Child>)
    returns (files: seq<CopyInfo>, dirs: seq<Pending>)
    ensures forall d :: d in dirs ==> d.index < |cs| && cs[d.index].node.Dir?
    ensures multiset(files) + Owed(dirs, cs) == multiset(files0) + multiset(Listed(l, r, cs))
  {
    hide Render, RelOf, Owed, Listed, Wanted;
    files, dirs := files0, [];
    OwedNothing(cs);
    ListedNothing(l, r);
    assert cs[..0] == [];
    var i := 0;
    while i < |cs|
      invariant 0 <= i <= |cs|
      invariant forall d :: d in dirs ==> d.index < |cs| && cs[d.index].node.Dir?
      invariant multiset(files) + Owed(dirs, cs) == multiset(files0) + multiset(Listed(l, r, cs[..i]))
    {
      var c := cs[i];
      ListedStep(l, r, cs, i);
      assert multiset(Listed(l, r, cs[..i + 1]))
          == multiset(Listed(l, r, cs[..i])) + multiset(Render(l, r, RelOf(c)));
      if IsDot(c.name) {
        RenderDot(l, r, c);
      } else if c.node.Dir? {
        RenderDir(l, r, c);
        if |l| + |c.name| + 1 <= PATH_MAX {
          var ci := Pending(l + (c.name + [SLASH]), r + (c.name + [SLASH]), i);
          OwedCons(ci, dirs, cs);
          AddBoth(multiset(files), multiset(Render(l, r, RelOf(c))), Owed(dirs, cs),
                  multiset(files0), multiset(Listed(l, r, cs[..i])));
          dirs := [ci] + dirs;
        }
      } else {
        RenderLeaf(l, r, c);
        if |l| + |c.name| + 1 <= PATH_MAX && Wanted(c.node) {
          var ci := CopyInfo(l + c.name, r + c.name, c.node.time, c.node.mode, c.node.size);
          ghost var was := files;
          files := [ci] + files;
          assert multiset(files) == multiset([ci]) + multiset(was);
          AddBoth(Owed(dirs, cs), multiset([ci]), multiset(was),
                  multiset(files0), multiset(Listed(l, r, cs[..i])));
        }
      }
      assert multiset(files) + Owed(dirs, cs) == multiset(files0) + multiset(Listed(l, r, cs[..i + 1]));

      i := i + 1;
    }
    assert cs[..i] == cs;
  }

  lemma AddBoth(a: multiset<CopyInfo>, b: multiset<CopyInfo>, c: multiset<CopyInfo>,
                d: multiset<CopyInfo>, e: multiset<CopyInfo>)
    requires a + c == d + e
    ensures a + (b + c) == d + (e + b)
  {
    assert a + (b + c) == a + c + b;
    assert d + (e + b) == d + e + b;
  }

  lemma ListedNothing(l: Text, r: Text)
    ensures Listed(l, r, []) == []
  {
  }

  lemma RenderDot(l: Text, r: Text, c: Child)
    requires IsDot(c.name)
    ensures Render(l, r, RelOf(c)) == []
  {
  }
}
