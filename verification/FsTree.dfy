/**
 The directory tree behind /fs as a value (src/vfs/vfs.h, src/vfs/vfs.cpp): named
 children in insertion order, files replaced by directories where one is needed.
 */
module FsTree {

  datatype Node<C> = Dir(children: seq<Child<C>>) | File(content: C)
  datatype Child<C> = Child(name: string, node: Node<C>)

  /** What a path leads to. */
  datatype Status<C> = Absent | DirHere | FileHere(content: C)

  // ---------- one directory ----------

  /** Position of the first child of that name, or the end. */
  function Index<C>(cs: seq<Child<C>>, name: string): (i: nat)
    ensures i <= |cs|
    ensures i < |cs| ==> cs[i].name == name
    ensures forall k | 0 <= k < i :: cs[k].name != name
  {
    if cs == [] || cs[0].name == name then 0 else 1 + Index(cs[1..], name)
  }

  lemma {:induction false} IndexIs<C>(cs: seq<Child<C>>, name: string, i: nat)
    requires i <= |cs| && (i < |cs| ==> cs[i].name == name)
    requires forall k | 0 <= k < i :: cs[k].name != name
    ensures Index(cs, name) == i
  {
    if i > 0 {
      IndexIs(cs[1..], name, i - 1);
    }
  }

  /** ensure_dir_child: reuse a directory, replace a file in place, or append. */
  function EnsureDirChild<C>(cs: seq<Child<C>>, name: string): seq<Child<C>> {
    var i := Index(cs, name);
    if i == |cs| then cs + [Child(name, Dir([]))]
    else if cs[i].node.Dir? then cs
    else cs[i := Child(name, Dir([]))]
  }

  // ---------- paths ----------

  function StatusAt<C>(cs: seq<Child<C>>, path: seq<string>): Status<C>
    requires path != []
    decreases |path|
  {
    var i := Index(cs, path[0]);
    if i == |cs| then Absent
    else
      match cs[i].node
      case File(content) => if |path| == 1 then FileHere(content) else Absent
      case Dir(children) => if |path| == 1 then DirHere else StatusAt(children, path[1..])
  }

  /** The path names a directory of the tree, or its root. */
  predicate IsDir<C>(cs: seq<Child<C>>, path: seq<string>) {
    path == [] || StatusAt(cs, path).DirHere?
  }

  function ChildrenAt<C>(cs: seq<Child<C>>, path: seq<string>): seq<Child<C>>
    requires IsDir(cs, path)
    decreases |path|
  {
    if path == [] then cs else ChildrenAt(cs[Index(cs, path[0])].node.children, path[1..])
  }

  /** The tree with the children of one directory exchanged. */
  function WithChildren<C>(cs: seq<Child<C>>, path: seq<string>, new': seq<Child<C>>): seq<Child<C>>
    requires IsDir(cs, path)
    decreases |path|
  {
    if path == [] then new'
    else
      var i := Index(cs, path[0]);
      cs[i := Child(path[0], Dir(WithChildren(cs[i].node.children, path[1..], new')))]
  }

  ghost predicate Below(path: seq<string>, p: seq<string>) {
    |path| < |p| && p[..|path|] == path
  }

  lemma {:induction false} StatusBelow<C>(cs: seq<Child<C>>, path: seq<string>, p: seq<string>)
    requires IsDir(cs, path) && Below(path, p)
    ensures StatusAt(cs, p) == StatusAt(ChildrenAt(cs, path), p[|path|..])
    decreases |path|
  {
    if path != [] {
      assert p[0] == path[0];
      StatusBelow(cs[Index(cs, path[0])].node.children, path[1..], p[1..]);
    }
  }

  /** Exchanging a directory's children changes nothing but what lies below it. */
  lemma {:induction false} StatusOfExchange<C>(cs: seq<Child<C>>, path: seq<string>, new': seq<Child<C>>,
                                               p: seq<string>)
    requires IsDir(cs, path) && p != []
    ensures StatusAt(WithChildren(cs, path, new'), p)
         == if Below(path, p) then StatusAt(new', p[|path|..]) else StatusAt(cs, p)
    decreases |path|
  {
    if path != [] {
      var i := Index(cs, path[0]);
      var cs' := WithChildren(cs, path, new');
      IndexAfterUpdate(cs, i, cs'[i], p[0]);
      if p[0] == path[0] && |p| > 1 {
        StatusOfExchange(cs[i].node.children, path[1..], new', p[1..]);
        assert Below(path, p) <==> Below(path[1..], p[1..]);
      }
    }
  }

  lemma IndexAfterUpdate<C>(cs: seq<Child<C>>, i: nat, c: Child<C>, name: string)
    requires i < |cs| && c.name == cs[i].name
    ensures Index(cs[i := c], name) == Index(cs, name)
  {
    IndexIs(cs[i := c], name, Index(cs, name));
  }

  lemma {:induction false} SameChildren<C>(cs: seq<Child<C>>, path: seq<string>)
    requires IsDir(cs, path)
    ensures WithChildren(cs, path, ChildrenAt(cs, path)) == cs
    decreases |path|
  {
    if path != [] {
      SameChildren(cs[Index(cs, path[0])].node.children, path[1..]);
    }
  }

  // ---------- the two edits ----------

  lemma EnsuredStatus<C>(cs: seq<Child<C>>, name: string, q: seq<string>)
    requires q != []
    ensures StatusAt(EnsureDirChild(cs, name), q) == if q == [name] then DirHere else StatusAt(cs, q)
  {
    var i, cs' := Index(cs, name), EnsureDirChild(cs, name);
    if i == |cs| {
      var j := Index(cs, q[0]);
      if j < |cs| {
        IndexIs(cs', q[0], j);
      } else if q[0] == name {
        IndexIs(cs', q[0], |cs|);
        assert cs'[|cs|] == Child(name, Dir([]));
      } else {
        IndexIs(cs', q[0], |cs'|);
      }
    } else if !cs[i].node.Dir? {
      IndexAfterUpdate(cs, i, cs'[i], q[0]);
    }
    if |q| > 1 && q[0] == name && (i == |cs| || !cs[i].node.Dir?) {
      NothingInEmpty<C>(q[1..]);
    }
  }

  lemma NothingInEmpty<C>(q: seq<string>)
    requires q != []
    ensures StatusAt<C>([], q) == Absent
  {
  }

  function EnsureAt<C>(cs: seq<Child<C>>, dir: seq<string>, name: string): seq<Child<C>>
    requires IsDir(cs, dir)
  {
    WithChildren(cs, dir, EnsureDirChild(ChildrenAt(cs, dir), name))
  }

  /** ensure_dir_child anywhere in the tree: that one path becomes a directory, every other keeps its status. */
  lemma EnsureAtStatus<C>(cs: seq<Child<C>>, dir: seq<string>, name: string, p: seq<string>)
    requires IsDir(cs, dir) && p != []
    ensures StatusAt(EnsureAt(cs, dir, name), p) == if p == dir + [name] then DirHere else StatusAt(cs, p)
  {
    StatusOfExchange(cs, dir, EnsureDirChild(ChildrenAt(cs, dir), name), p);
    if Below(dir, p) {
      StatusBelow(cs, dir, p);
      EnsuredStatus(ChildrenAt(cs, dir), name, p[|dir|..]);
      assert p == dir + p[|dir|..];
    }
  }

  lemma EnsureAtSame<C>(cs: seq<Child<C>>, dir: seq<string>, name: string)
    requires IsDir(cs, dir) && IsDir(cs, dir + [name])
    ensures EnsureAt(cs, dir, name) == cs
  {
    assert (dir + [name])[|dir|..] == [name];
    StatusBelow(cs, dir, dir + [name]);
    SameChildren(cs, dir);
  }

  /** DirNode::add of a file: the first child of a name stays. */
  function AddAt<C>(cs: seq<Child<C>>, dir: seq<string>, name: string, content: C): seq<Child<C>>
    requires IsDir(cs, dir)
  {
    var children := ChildrenAt(cs, dir);
    if Index(children, name) < |children| then cs
    else WithChildren(cs, dir, children + [Child(name, File(content))])
  }

  lemma FreeName<C>(cs: seq<Child<C>>, name: string)
    ensures StatusAt(cs, [name]).Absent? <==> Index(cs, name) == |cs|
  {
  }

  lemma AppendedStatus<C>(cs: seq<Child<C>>, name: string, content: C, q: seq<string>)
    requires q != [] && Index(cs, name) == |cs|
    ensures StatusAt(cs + [Child(name, File(content))], q)
         == if q == [name] then FileHere(content) else StatusAt(cs, q)
  {
    var more := cs + [Child(name, File(content))];
    var j := Index(cs, q[0]);
    IndexIs(more, q[0], if j == |cs| && q[0] != name then |more| else j);
  }

  lemma AddAtStatus<C>(cs: seq<Child<C>>, dir: seq<string>, name: string, content: C, p: seq<string>)
    requires IsDir(cs, dir) && p != []
    ensures StatusAt(AddAt(cs, dir, name, content), p)
         == if p == dir + [name] && StatusAt(cs, p).Absent? then FileHere(content) else StatusAt(cs, p)
  {
    hide StatusAt, ChildrenAt, WithChildren, Index;
    var children := ChildrenAt(cs, dir);
    if Below(dir, p) {
      StatusBelow(cs, dir, p);
      assert p == dir + p[|dir|..];
      if p == dir + [name] {
        assert p[|dir|..] == [name];
        FreeName(children, name);
      }
    }
    if Index(children, name) == |children| {
      var more := children + [Child(name, File(content))];
      StatusOfExchange(cs, dir, more, p);
      if Below(dir, p) {
        AppendedStatus(children, name, content, p[|dir|..]);
      }
    }
  }

  lemma MadeDir<C>(cs: seq<Child<C>>, dir: seq<string>)
    requires dir != [] && IsDir(cs, dir[..|dir| - 1])
    ensures IsDir(EnsureAt(cs, dir[..|dir| - 1], dir[|dir| - 1]), dir)
  {
    hide StatusAt, EnsureAt;
    var n := |dir| - 1;
    EnsureAtStatus(cs, dir[..n], dir[n], dir);
    assert dir == dir[..n] + [dir[n]];
  }

  /** One directory of the chain after another: every prefix of dir becomes a directory. */
  function MakeDirs<C>(cs: seq<Child<C>>, dir: seq<string>): (cs': seq<Child<C>>)
    ensures IsDir(cs', dir)
    decreases |dir|
  {
    if dir == [] then cs
    else
      var n := |dir| - 1;
      MadeDir(MakeDirs(cs, dir[..n]), dir);
      EnsureAt(MakeDirs(cs, dir[..n]), dir[..n], dir[n])
  }

  lemma {:induction false} MakeDirsStatus<C>(cs: seq<Child<C>>, dir: seq<string>, p: seq<string>)
    requires p != []
    ensures StatusAt(MakeDirs(cs, dir), p) == if p <= dir then DirHere else StatusAt(cs, p)
    decreases |dir|
  {
    hide StatusAt, EnsureAt;
    if dir != [] {
      var n := |dir| - 1;
      MakeDirsStatus(cs, dir[..n], p);
      EnsureAtStatus(MakeDirs(cs, dir[..n]), dir[..n], dir[n], p);
      assert dir == dir[..n] + [dir[n]];
    }
  }

  /** Where the chain exists already, nothing changes. */
  lemma {:induction false} MakeDirsSame<C>(cs: seq<Child<C>>, dir: seq<string>)
    requires forall k | 0 < k <= |dir| :: IsDir(cs, dir[..k])
    ensures MakeDirs(cs, dir) == cs
    decreases |dir|
  {
    if dir != [] {
      var n := |dir| - 1;
      assert forall k | 0 < k <= n :: dir[..n][..k] == dir[..k];
      MakeDirsSame(cs, dir[..n]);
      assert dir[..n + 1] == dir == dir[..n] + [dir[n]];
      EnsureAtSame(cs, dir[..n], dir[n]);
    }
  }

  // ---------- the order of two additions ----------

  /** Adding below a directory leaves the directory's siblings alone. */
  lemma AddAtDown<C>(cs: seq<Child<C>>, dir: seq<string>, name: string, content: C)
    requires dir != [] && IsDir(cs, dir)
    ensures var i := Index(cs, dir[0]);
      && i < |cs| && cs[i].node.Dir? && IsDir(cs[i].node.children, dir[1..])
      && AddAt(cs, dir, name, content)
         == cs[i := Child(dir[0], Dir(AddAt(cs[i].node.children, dir[1..], name, content)))]
  {
    hide Index;
    assert dir[1..] == [] || StatusAt(cs, dir) == StatusAt(cs[Index(cs, dir[0])].node.children, dir[1..]);
  }

  lemma AddAtHere<C>(cs: seq<Child<C>>, name: string, content: C)
    ensures AddAt(cs, [], name, content) == if Index(cs, name) < |cs| then cs else cs + [Child(name, File(content))]
  {
  }

  lemma IndexAfterAppend<C>(cs: seq<Child<C>>, c: Child<C>, name: string)
    requires Index(cs, name) < |cs|
    ensures Index(cs + [c], name) == Index(cs, name)
  {
    IndexIs(cs + [c], name, Index(cs, name));
  }

  lemma IsDirAfterAdd<C>(cs: seq<Child<C>>, dir: seq<string>, name: string, content: C, d: seq<string>)
    requires IsDir(cs, dir) && IsDir(cs, d)
    ensures IsDir(AddAt(cs, dir, name, content), d)
  {
    if d != [] { AddAtStatus(cs, dir, name, content, d); }
  }

  /** A directory and one below it: the two additions do not meet. */
  lemma HereAndBelow<C>(cs: seq<Child<C>>, n1: string, c1: C, d2: seq<string>, n2: string, c2: C)
    requires d2 != [] && IsDir(cs, d2)
    ensures IsDir(AddAt(cs, [], n1, c1), d2)
    ensures AddAt(AddAt(cs, [], n1, c1), d2, n2, c2) == AddAt(AddAt(cs, d2, n2, c2), [], n1, c1)
  {
    hide Index, StatusAt, AddAt;
    IsDirAfterAdd(cs, [], n1, c1, d2);
    AddAtDown(cs, d2, n2, c2);
    AddAtHere(cs, n1, c1);
    var j := Index(cs, d2[0]);
    var below := Child(d2[0], Dir(AddAt(cs[j].node.children, d2[1..], n2, c2)));
    AddAtHere(cs[j := below], n1, c1);
    assert cs[j].name == d2[0];
    IndexAfterUpdate(cs, j, below, n1);
    if Index(cs, n1) == |cs| {
      var file := Child(n1, File(c1));
      IndexAfterAppend(cs, file, d2[0]);
      AddAtDown(cs + [file], d2, n2, c2);
      assert (cs + [file])[j := below] == cs[j := below] + [file];
    }
  }

  /** Files added to two different directories: the order is immaterial. */
  lemma {:induction false} AddsCommute<C>(cs: seq<Child<C>>, d1: seq<string>, n1: string, c1: C,
                                          d2: seq<string>, n2: string, c2: C)
    requires IsDir(cs, d1) && IsDir(cs, d2) && d1 != d2
    ensures IsDir(AddAt(cs, d1, n1, c1), d2) && IsDir(AddAt(cs, d2, n2, c2), d1)
    ensures AddAt(AddAt(cs, d1, n1, c1), d2, n2, c2) == AddAt(AddAt(cs, d2, n2, c2), d1, n1, c1)
    decreases |d1|
  {
    hide Index, StatusAt, AddAt;
    IsDirAfterAdd(cs, d1, n1, c1, d2);
    IsDirAfterAdd(cs, d2, n2, c2, d1);
    if d1 == [] {
      HereAndBelow(cs, n1, c1, d2, n2, c2);
    } else if d2 == [] {
      HereAndBelow(cs, n2, c2, d1, n1, c1);
    } else {
      AddAtDown(cs, d1, n1, c1);
      AddAtDown(cs, d2, n2, c2);
      var i, j := Index(cs, d1[0]), Index(cs, d2[0]);
      var one := Child(d1[0], Dir(AddAt(cs[i].node.children, d1[1..], n1, c1)));
      var two := Child(d2[0], Dir(AddAt(cs[j].node.children, d2[1..], n2, c2)));
      assert cs[i].name == d1[0] && cs[j].name == d2[0];
      IndexAfterUpdate(cs, i, one, d2[0]);
      IndexAfterUpdate(cs, j, two, d1[0]);
      AddAtDown(cs[i := one], d2, n2, c2);
      AddAtDown(cs[j := two], d1, n1, c1);
      if d1[0] == d2[0] {
        AddsCommute(cs[i].node.children, d1[1..], n1, c1, d2[1..], n2, c2);
      } else {
        assert cs[i := one][j := two] == cs[j := two][i := one];
      }
    }
  }

  /** The names listed for a directory before are the first ones listed for it after. */
  ghost predicate NamesStay<C>(cs: seq<Child<C>>, cs': seq<Child<C>>, d: seq<string>) {
    && IsDir(cs, d) && IsDir(cs', d) && |ChildrenAt(cs, d)| <= |ChildrenAt(cs', d)|
    && forall i | 0 <= i < |ChildrenAt(cs, d)| :: ChildrenAt(cs', d)[i].name == ChildrenAt(cs, d)[i].name
  }

  /** An addition never reorders a listing. */
  lemma {:induction false} AddKeepsNames<C>(cs: seq<Child<C>>, dir: seq<string>, name: string, content: C,
                                            d: seq<string>)
    requires IsDir(cs, dir) && IsDir(cs, d)
    ensures NamesStay(cs, AddAt(cs, dir, name, content), d)
    decreases |d|
  {
    hide Index, StatusAt, AddAt;
    var cs' := AddAt(cs, dir, name, content);
    IsDirAfterAdd(cs, dir, name, content, d);
    if dir == [] {
      AddAtHere(cs, name, content);
      if d != [] {
        Enter(cs, d);
        if cs' != cs { IndexAfterAppend(cs, Child(name, File(content)), d[0]); }
        Enter(cs', d);
      }
    } else {
      AddAtDown(cs, dir, name, content);
      var i := Index(cs, dir[0]);
      if d != [] {
        Enter(cs, d);
        IndexAfterUpdate(cs, i, cs'[i], d[0]);
        Enter(cs', d);
        if d[0] == dir[0] {
          AddKeepsNames(cs[i].node.children, dir[1..], name, content, d[1..]);
        }
      }
    }
  }

  lemma Enter<C>(cs: seq<Child<C>>, d: seq<string>)
    requires d != [] && IsDir(cs, d)
    ensures var i := Index(cs, d[0]);
      i < |cs| && cs[i].node.Dir? && IsDir(cs[i].node.children, d[1..])
      && ChildrenAt(cs, d) == ChildrenAt(cs[i].node.children, d[1..])
  {
  }
}
