/**
 When the iteration order of the candidate map shows in /fs (src/app/engine.cpp):
 the second pass visits an unordered map, so every order is a possible run.
 */
module FsOrder {
  import opened Words
  import opened FsPath
  import opened FsTree
  import opened FsBuilder

  // ---------- orders ----------

  lemma {:induction false} FirstOfCons(e: Entry, rest: seq<Entry>)
    ensures FirstAt([e] + rest, e.Path()) == Some(e)
  {
    if rest == [] {
      assert ([e] + rest)[..0] == [];
    } else {
      FirstOfCons(e, rest[..|rest| - 1]);
      assert ([e] + rest)[..|rest|] == [e] + rest[..|rest| - 1];
    }
  }

  /** Any set of candidates can be visited in some order. */
  lemma {:induction false} SomeOrder(cands: map<string, Entry>) returns (order: seq<Entry>)
    requires forall key | key in cands :: cands[key].key == key
    ensures Enumerates(order, cands)
    decreases |cands|
  {
    order := [];
    if cands.Keys != {} {
      var key :| key in cands.Keys;
      var rest := SomeOrder(cands - {key});
      order := [cands[key]] + rest;
    }
  }

  /** Any candidate can come first. */
  lemma OrderStartingWith(cands: map<string, Entry>, key: string) returns (order: seq<Entry>)
    requires key in cands && forall k | k in cands :: cands[k].key == k
    ensures Enumerates(order, cands) && FirstAt(order, cands[key].Path()) == Some(cands[key])
    ensures order != [] && order[0] == cands[key]
  {
    var rest := SomeOrder(cands - {key});
    order := [cands[key]] + rest;
    FirstOfCons(cands[key], rest);
  }

  // ---------- what a path shows ----------

  /** All orders show the same at every path. */
  ghost predicate OrderIndependent(root: Tree, cands: map<string, Entry>)
    requires Addable(root, cands)
  {
    forall o1, o2, p: seq<string> | Enumerates(o1, cands) && Enumerates(o2, cands) && p != [] ::
      StatusAt(InsertAll(root, o1), p) == StatusAt(InsertAll(root, o2), p)
  }

  /** Pass one left the candidate's path free. */
  ghost predicate Free(root: Tree, e: Entry) {
    StatusAt(root, e.Path()).Absent?
  }

  /** Two candidates for one free path with different inodes. */
  ghost predicate Rivals(root: Tree, a: Entry, b: Entry) {
    Free(root, a) && Free(root, b) && a.Path() == b.Path() && a.inode != b.inode
  }

  /**
   The result is the same for every iteration order exactly when no two candidate
   keys with different inodes lie at one path that pass one left free.
   */
  lemma OrderIndependentIff(root: Tree, cands: map<string, Entry>)
    requires Addable(root, cands)
    ensures OrderIndependent(root, cands)
       <==> forall k1, k2 | k1 in cands && k2 in cands :: !Rivals(root, cands[k1], cands[k2])
  {
    hide StatusAt, InsertAll, FirstAt;
    if OrderIndependent(root, cands) {
      forall k1, k2 | k1 in cands && k2 in cands ensures !Rivals(root, cands[k1], cands[k2]) {
        var p := cands[k1].Path();
        var o1 := OrderStartingWith(cands, k1);
        var o2 := OrderStartingWith(cands, k2);
        InsertAllStatus(root, o1, p);
        InsertAllStatus(root, o2, p);
      }
    }
    if forall k1, k2 | k1 in cands && k2 in cands :: !Rivals(root, cands[k1], cands[k2]) {
      forall o1, o2, p: seq<string> | Enumerates(o1, cands) && Enumerates(o2, cands) && p != []
        ensures StatusAt(InsertAll(root, o1), p) == StatusAt(InsertAll(root, o2), p)
      {
        InsertAllStatus(root, o1, p);
        InsertAllStatus(root, o2, p);
        FirstAtIs(o1, p);
        FirstAtIs(o2, p);
        if FirstAt(o1, p).Some? && FirstAt(o2, p).Some? {
          assert !Rivals(root, FirstAt(o1, p).value, FirstAt(o2, p).value);
        }
      }
    }
  }

  // ---------- the whole tree, listings included ----------

  /** All orders give the same tree, every directory listed in the same order. */
  ghost predicate ListingIndependent(root: Tree, cands: map<string, Entry>)
    requires Addable(root, cands)
  {
    forall o1, o2 | Enumerates(o1, cands) && Enumerates(o2, cands) :: InsertAll(root, o1) == InsertAll(root, o2)
  }

  /** Two new files for one directory, unless they are the same file twice. */
  ghost predicate Neighbours(root: Tree, a: Entry, b: Entry) {
    && Free(root, a) && Free(root, b) && a.Dir() == b.Dir()
    && !(a.Path() == b.Path() && a.inode == b.inode)
  }

  function Put(tree: Tree, e: Entry): Tree
    requires IsDir(tree, e.Dir())
  {
    AddAt(tree, e.Dir(), e.basename, Recovered(e.inode))
  }

  lemma InsertLast(root: Tree, order: seq<Entry>, e: Entry)
    requires forall x | x in order + [e] :: IsDir(root, x.Dir())
    ensures forall x | x in order :: x in order + [e]
    ensures IsDir(InsertAll(root, order), e.Dir())
    ensures InsertAll(root, order + [e]) == Put(InsertAll(root, order), e)
  {
    hide StatusAt, AddAt;
    assert (order + [e])[..|order|] == order;
    assert e in order + [e] && forall x | x in order :: x in order + [e];
  }

  /** What is taken stays taken, so the addition there does nothing. */
  lemma Blocked(tree: Tree, e: Entry)
    requires IsDir(tree, e.Dir()) && !Free(tree, e)
    ensures Put(tree, e) == tree
  {
    StatusBelowOne(tree, e.Dir(), e.basename);
  }

  lemma StatusBelowOne(tree: Tree, dir: seq<string>, name: string)
    requires IsDir(tree, dir)
    ensures StatusAt(tree, dir + [name]).Absent? <==> Index(ChildrenAt(tree, dir), name) == |ChildrenAt(tree, dir)|
  {
    StatusBelow(tree, dir, dir + [name]);
    assert (dir + [name])[|dir|..] == [name];
  }

  lemma StillTaken(root: Tree, order: seq<Entry>, e: Entry)
    requires (forall x | x in order :: IsDir(root, x.Dir())) && !Free(root, e)
    ensures !Free(InsertAll(root, order), e)
  {
    hide StatusAt, InsertAll;
    InsertAllStatus(root, order, e.Path());
  }

  lemma PutKeepsDirs(tree: Tree, a: Entry, b: Entry)
    requires IsDir(tree, a.Dir()) && IsDir(tree, b.Dir())
    ensures IsDir(Put(tree, a), b.Dir())
    ensures !Free(tree, b) ==> !Free(Put(tree, a), b)
  {
    hide StatusAt, AddAt;
    IsDirAfterAdd(tree, a.Dir(), a.basename, Recovered(a.inode), b.Dir());
    AddAtStatus(tree, a.Dir(), a.basename, Recovered(a.inode), b.Path());
  }

  /** Two candidates that are not neighbours can change places. */
  lemma Swap(root: Tree, order: seq<Entry>, a: Entry, b: Entry)
    requires (forall x | x in order :: IsDir(root, x.Dir())) && IsDir(root, a.Dir()) && IsDir(root, b.Dir())
    requires !Neighbours(root, a, b)
    ensures var tree := InsertAll(root, order);
      && IsDir(tree, a.Dir()) && IsDir(tree, b.Dir()) && IsDir(Put(tree, a), b.Dir()) && IsDir(Put(tree, b), a.Dir())
      && Put(Put(tree, a), b) == Put(Put(tree, b), a)
  {
    hide InsertAll, StatusAt, AddAt, Put, Free;
    var tree := InsertAll(root, order);
    assert IsDir(tree, a.Dir()) && IsDir(tree, b.Dir());
    PutKeepsDirs(tree, a, b);
    PutKeepsDirs(tree, b, a);
    if !Free(root, a) {
      StillTaken(root, order, a);
      Blocked(tree, a);
      Blocked(Put(tree, b), a);
    } else if !Free(root, b) {
      StillTaken(root, order, b);
      Blocked(tree, b);
      Blocked(Put(tree, a), b);
    } else if a.Dir() != b.Dir() {
      PutsCommute(tree, a, b);
    } else {
      SamePut(tree, a, b);
    }
  }

  lemma PutsCommute(tree: Tree, a: Entry, b: Entry)
    requires IsDir(tree, a.Dir()) && IsDir(tree, b.Dir()) && a.Dir() != b.Dir()
    requires IsDir(Put(tree, a), b.Dir()) && IsDir(Put(tree, b), a.Dir())
    ensures Put(Put(tree, a), b) == Put(Put(tree, b), a)
  {
    hide StatusAt, AddAt, IsDir;
    AddsCommute(tree, a.Dir(), a.basename, Recovered(a.inode), b.Dir(), b.basename, Recovered(b.inode));
  }

  lemma SamePut(tree: Tree, a: Entry, b: Entry)
    requires IsDir(tree, a.Dir()) && IsDir(tree, b.Dir()) && a.Path() == b.Path() && a.inode == b.inode
    requires IsDir(Put(tree, a), b.Dir()) && IsDir(Put(tree, b), a.Dir())
    requires a.Dir() == b.Dir()
    ensures Put(Put(tree, a), b) == Put(Put(tree, b), a)
  {
    hide StatusAt, AddAt, IsDir;
    assert a.Path()[|a.Dir()|] == a.basename && b.Path()[|b.Dir()|] == b.basename;
  }

  /** A candidate with no neighbours after it can come last. */
  lemma {:induction false} MoveToEnd(root: Tree, pre: seq<Entry>, e: Entry, post: seq<Entry>)
    requires forall x | x in pre + [e] + post :: IsDir(root, x.Dir())
    requires forall x | x in post :: !Neighbours(root, e, x)
    ensures forall x | x in pre + post + [e] :: x in pre + [e] + post
    ensures InsertAll(root, pre + [e] + post) == InsertAll(root, pre + post + [e])
    decreases |post|
  {
    hide InsertAll, IsDir, Neighbours, Put;
    assert forall x | x in pre + post + [e] :: x in pre + [e] + post;
    if post == [] {
      assert pre + [e] + post == pre + post + [e];
    } else {
      var n := |post| - 1;
      var front, last := post[..n], post[n];
      assert last in post && pre + [e] + post == pre + [e] + front + [last];
      assert forall x | x in pre + [e] + front :: x in pre + [e] + post;
      MoveToEnd(root, pre, e, front);
      InsertLast(root, pre + [e] + front, last);
      InsertLast(root, pre + front, e);
      InsertLast(root, pre + front, last);
      assert pre + post == pre + front + [last];
      InsertLast(root, pre + post, e);
      Swap(root, pre + front, e, last);
    }
  }

  predicate Distinct(order: seq<Entry>) {
    forall i, j | 0 <= i < j < |order| :: order[i] != order[j]
  }

  /** Two orders of the same candidates give the same tree if none of them are neighbours. */
  lemma {:induction false} SameTree(root: Tree, o1: seq<Entry>, o2: seq<Entry>)
    requires Distinct(o1) && Distinct(o2) && forall e :: e in o1 <==> e in o2
    requires forall e | e in o1 :: IsDir(root, e.Dir())
    requires forall a, b | a in o1 && b in o1 :: !Neighbours(root, a, b)
    ensures InsertAll(root, o1) == InsertAll(root, o2)
    decreases |o2|
  {
    hide InsertAll, IsDir, Neighbours, Put;
    if o2 == [] {
      if o1 != [] { HasMember(o1); }
    } else {
      var n := |o2| - 1;
      var e := o2[n];
      assert e in o2;
      var i :| 0 <= i < |o1| && o1[i] == e;
      var pre, post := o1[..i], o1[i + 1..];
      assert o1 == pre + [e] + post;
      MoveToEnd(root, pre, e, post);
      WithoutLast(o1, o2, i);
      InsertLast(root, pre + post, e);
      assert o2 == o2[..n] + [e];
      InsertLast(root, o2[..n], e);
      SameTree(root, pre + post, o2[..n]);
    }
  }

  lemma HasMember(order: seq<Entry>)
    requires order != []
    ensures exists e :: e in order
  {
    assert order[0] in order;
  }

  lemma WithoutLast(o1: seq<Entry>, o2: seq<Entry>, i: nat)
    requires Distinct(o1) && Distinct(o2) && (forall e :: e in o1 <==> e in o2)
    requires i < |o1| && o2 != [] && o1[i] == o2[|o2| - 1]
    ensures var rest := o1[..i] + o1[i + 1..];
      Distinct(rest) && Distinct(o2[..|o2| - 1]) && forall e :: e in rest <==> e in o2[..|o2| - 1]
  {
    var rest, front, last := o1[..i] + o1[i + 1..], o2[..|o2| - 1], o2[|o2| - 1];
    forall e ensures e in rest <==> e in o1 && e != last {
      if e in o1 && e != last {
        var k :| 0 <= k < |o1| && o1[k] == e;
        assert rest[if k < i then k else k - 1] == e;
      }
    }
    forall e ensures e in front <==> e in o2 && e != last {
      if e in o2 && e != last {
        var k :| 0 <= k < |o2| && o2[k] == e;
        assert front[k] == e;
      }
    }
  }

  /** The first of two neighbours to be visited gets the next place in their directory's listing, for good. */
  lemma {:induction false} FirstVisited(root: Tree, order: seq<Entry>)
    requires order != [] && Free(root, order[0]) && forall e | e in order :: IsDir(root, e.Dir())
    ensures var d, n := order[0].Dir(), |ChildrenAt(root, order[0].Dir())|;
      && IsDir(InsertAll(root, order), d) && n < |ChildrenAt(InsertAll(root, order), d)|
      && ChildrenAt(InsertAll(root, order), d)[n].name == order[0].basename
    decreases |order|
  {
    hide InsertAll, StatusAt, ChildrenAt, AddAt;
    var e := order[|order| - 1];
    var front := order[..|order| - 1];
    assert order == front + [e] && e in order;
    InsertLast(root, front, e);
    if front == [] {
      InsertNone(root);
      assert front == [];
      AppendsName(root, e);
    } else {
      FirstVisited(root, front);
      AddKeepsNames(InsertAll(root, front), e.Dir(), e.basename, Recovered(e.inode), order[0].Dir());
    }
  }

  lemma InsertNone(root: Tree)
    ensures InsertAll(root, []) == root
  {
  }

  lemma AppendsName(root: Tree, e: Entry)
    requires IsDir(root, e.Dir()) && Free(root, e)
    ensures IsDir(Put(root, e), e.Dir())
    ensures ChildrenAt(Put(root, e), e.Dir())
         == ChildrenAt(root, e.Dir()) + [Child(e.basename, File(Recovered(e.inode)))]
  {
    hide StatusAt, Index;
    StatusBelowOne(root, e.Dir(), e.basename);
    Exchanged(root, e.Dir(), ChildrenAt(root, e.Dir()) + [Child(e.basename, File(Recovered(e.inode)))]);
  }

  lemma {:induction false} Exchanged(cs: Tree, path: seq<string>, new': Tree)
    requires IsDir(cs, path)
    ensures IsDir(WithChildren(cs, path, new'), path) && ChildrenAt(WithChildren(cs, path, new'), path) == new'
    decreases |path|
  {
    if path != [] {
      var i := Index(cs, path[0]);
      Exchanged(cs[i].node.children, path[1..], new');
      IndexAfterUpdate(cs, i, WithChildren(cs, path, new')[i], path[0]);
    }
  }

  /**
   Every iteration order gives the same tree exactly when no directory gets two
   new files, unless those are the same inode under two spellings of one path.
   */
  lemma ListingIndependentIff(root: Tree, cands: map<string, Entry>)
    requires Addable(root, cands)
    ensures ListingIndependent(root, cands)
       <==> forall k1, k2 | k1 in cands && k2 in cands :: !Neighbours(root, cands[k1], cands[k2])
  {
    hide InsertAll, StatusAt, ChildrenAt, FirstAt, Neighbours;
    if ListingIndependent(root, cands) {
      forall k1, k2 | k1 in cands && k2 in cands ensures !Neighbours(root, cands[k1], cands[k2]) {
        if Neighbours(root, cands[k1], cands[k2]) {
          var o1 := OrderStartingWith(cands, k1);
          var o2 := OrderStartingWith(cands, k2);
          NeighboursShow(root, o1, o2);
        }
      }
    }
    if forall k1, k2 | k1 in cands && k2 in cands :: !Neighbours(root, cands[k1], cands[k2]) {
      forall o1, o2 | Enumerates(o1, cands) && Enumerates(o2, cands)
        ensures InsertAll(root, o1) == InsertAll(root, o2)
      {
        SameTree(root, o1, o2);
      }
    }
  }

  lemma NeighboursShow(root: Tree, o1: seq<Entry>, o2: seq<Entry>)
    requires o1 != [] && o2 != [] && Neighbours(root, o1[0], o2[0])
    requires FirstAt(o1, o1[0].Path()) == Some(o1[0]) && FirstAt(o2, o2[0].Path()) == Some(o2[0])
    requires (forall e | e in o1 :: IsDir(root, e.Dir())) && forall e | e in o2 :: IsDir(root, e.Dir())
    ensures InsertAll(root, o1) != InsertAll(root, o2)
  {
    hide InsertAll, StatusAt, ChildrenAt, FirstAt;
    if o1[0].Path() == o2[0].Path() {
      InsertAllStatus(root, o1, o1[0].Path());
      InsertAllStatus(root, o2, o2[0].Path());
    } else {
      FirstVisited(root, o1);
      FirstVisited(root, o2);
    }
  }

  // ---------- after pass one ----------

  lemma {:induction false} EntryOfInode(inodes: seq<Inode>, o: Outside, e: Entry)
    requires e in Entries(inodes, o)
    ensures Accept(e.inode, o) == Some(e)
  {
    hide Accept;
    var n := |inodes| - 1;
    if e in Entries(inodes[..n], o) {
      EntryOfInode(inodes[..n], o, e);
    } else {
      AcceptedPath(inodes[n], o);
    }
  }

  /** An inode has one path and so one key: the candidates of pass one hold it once. */
  lemma InodeOnce(inodes: seq<Inode>, o: Outside, cands: map<string, Entry>, k1: string, k2: string)
    requires Candidates(cands, Entries(inodes, o), o) && k1 in cands && k2 in cands
    requires cands[k1].inode == cands[k2].inode
    ensures k1 == k2
  {
    hide Accept, BetterRegular, Entries;
    var es := Entries(inodes, o);
    BestIsMember(es, k1, o);
    BestIsMember(es, k2, o);
    EntryOfInode(inodes, o, cands[k1]);
    EntryOfInode(inodes, o, cands[k2]);
  }

  /**
   In every state pass one can leave: what paths show is independent of the map's
   order exactly when no two candidates have one free path, and the whole tree,
   listings included, exactly when no two are new files of one directory.
   */
  lemma MapOrderMattersIff(inodes: seq<Inode>, o: Outside, root: Tree, cands: map<string, Entry>)
    requires Matches(root, Entries(inodes, o)) && Candidates(cands, Entries(inodes, o), o)
    ensures Addable(root, cands)
    ensures OrderIndependent(root, cands)
      <==> forall k1, k2 | k1 in cands && k2 in cands && k1 != k2 && Free(root, cands[k1]) ::
             cands[k1].Path() != cands[k2].Path()
    ensures ListingIndependent(root, cands)
      <==> forall k1, k2 | k1 in cands && k2 in cands && k1 != k2 && Free(root, cands[k1]) && Free(root, cands[k2]) ::
             cands[k1].Dir() != cands[k2].Dir()
  {
    hide StatusAt, OrderIndependent, ListingIndependent, Entries, Matches, Candidates, Addable;
    CandidatesAreAddable(inodes, o, root, cands);
    OrderIndependentIff(root, cands);
    ListingIndependentIff(root, cands);
    forall k1, k2 | k1 in cands && k2 in cands
      ensures Rivals(root, cands[k1], cands[k2])
        <==> k1 != k2 && Free(root, cands[k1]) && cands[k1].Path() == cands[k2].Path()
      ensures Neighbours(root, cands[k1], cands[k2])
        <==> k1 != k2 && Free(root, cands[k1]) && Free(root, cands[k2]) && cands[k1].Dir() == cands[k2].Dir()
    {
      if cands[k1].inode == cands[k2].inode { InodeOnce(inodes, o, cands, k1, k2); }
    }
  }

  // ---------- inode lists on which it shows ----------

  function RegularInode(path: string, id: nat): Inode {
    Inode(path, "ext4", 0x8000, 0, 0, id)
  }

  /** Two accepted spellings of one path: different keys, the same components. */
  lemma DoubledSlash()
    ensures Components("/d//f") == Components("/d/f") == ["d", "f"]
    ensures Components("/d/") == Components("/d") == ["d"]
  {
    var s, t := "/d//f", "/d/f";
    NoSlashLeft(s, 4);
    NoSlashLeft(t, 3);
    SplitAtSlash(s, 0, 3);
    SplitAtSlash(t, 0, 2);
    NoSlashLeft(s[..3][..2], 1);
    NoSlashLeft(t[..2], 1);
    assert s[..3] == "/d/" && t[..2] == "/d" && s[4..] == "f" && t[3..] == "f";
    SplitAtSlash("/d/", 0, 2);
    assert "/d/"[..2] == "/d" && "/d"[1..] == "d";
    assert ComponentsFrom("/d", 0) == ComponentsFrom("/d", 1);
  }

  lemma OneName(c: string)
    requires c != "" && '/' !in c
    ensures Components("/" + c) == [c]
  {
    NoSlashLeft("/" + c, 1);
    assert ("/" + c)[1..] == c;
  }

  /** A regular inode of an ordinary filesystem, at a safe path outside /root and /systemd. */
  lemma RegularAccepted(ci: Inode, slash: nat, o: Outside)
    requires ci.fs == "ext4" && ci.mode == 0x8000 && |ci.path| <= 5 && slash + 1 < |ci.path|
    requires ci.path[0] == '/' && ci.path[slash] == '/' && forall k | slash < k < |ci.path| :: ci.path[k] != '/'
    requires ci.path != "/root" && forall c | c in Components(ci.path) :: o.safe(c)
    ensures Accept(ci, o) == Some(Entry(ci.path, ci.path[..slash], ci.path[slash + 1..], Regular, ci))
  {
    hide ComponentsFrom, NormaliseFsPath, LastSlash;
    var base := ci.path[slash + 1..];
    SplitAtSlash(ci.path, 0, slash);
    assert base in Components(ci.path);
    OneName(base);
    ShortPath(ci.path);
    assert LastSlash(ci.path) == slash;
    assert ValidPath("/" + base, o);
  }

  lemma ShortPath(path: string)
    requires 0 < |path| <= 5 && path != "/root"
    ensures NormaliseFsPath(path) == path
  {
  }

  lemma TwoEntries(a: Inode, b: Inode, o: Outside, x: Entry, y: Entry)
    requires Accept(a, o) == Some(x) && Accept(b, o) == Some(y)
    ensures Entries([a, b], o) == [x, y]
  {
    hide Accept;
    assert [a, b][..1] == [a] && [a][..0] == [];
    assert Entries([a], o) == [x];
  }

  /** Two regular entries with different keys: both are candidates, and their own paths stay free. */
  lemma TwoCandidates(root: Tree, cands: map<string, Entry>, x: Entry, y: Entry, o: Outside)
    requires Matches(root, [x, y]) && Candidates(cands, [x, y], o)
    requires x.kind.Regular? && y.kind.Regular? && x.key != y.key && |x.Path()| == |y.Path()|
    ensures x.key in cands && cands[x.key] == x && y.key in cands && cands[y.key] == y
    ensures forall key | key in cands :: key == x.key || key == y.key
    ensures Free(root, x) && Free(root, y)
  {
    hide BetterRegular, StatusAt;
    forall key | key in cands ensures key == x.key || key == y.key {
      BestIsMember([x, y], key, o);
    }
    assert [x, y] == [x] + [y] && [x] == [] + [x];
    BestOfMore([], x, x.key, o);
    BestOfMore([], x, y.key, o);
    BestOfMore([x], y, x.key, o);
    BestOfMore([x], y, y.key, o);
    NoLinks([x, y], x.Path());
    NoLinks([x, y], y.Path());
  }

  lemma BestOfMore(es: seq<Entry>, e: Entry, key: string, o: Outside)
    ensures Best([], key, o) == None
    ensures e.key != key ==> Best(es + [e], key, o) == Best(es, key, o)
    ensures Candidate(e, key) && Best(es, key, o).None? ==> Best(es + [e], key, o) == Some(e)
  {
    hide BetterRegular;
    assert (es + [e])[..|es|] == es;
  }

  lemma {:induction false} NoLinks(es: seq<Entry>, p: seq<string>)
    requires forall e | e in es :: !e.kind.Symlink?
    ensures FirstLink(es, p) == None
  {
    if es != [] {
      assert es[|es| - 1] in es;
      NoLinks(es[..|es| - 1], p);
    }
  }

  /** Two inodes under two spellings of one path: which of them /fs shows follows the hash map. */
  lemma DoubledSlashCollides(o: Outside, root: Tree, cands: map<string, Entry>)
    requires o.safe("d") && o.safe("f")
    requires var es := Entries([RegularInode("/d//f", 1), RegularInode("/d/f", 2)], o);
      Matches(root, es) && Candidates(cands, es, o)
    ensures Addable(root, cands) && !OrderIndependent(root, cands)
  {
    hide Accept, StatusAt, Matches, Candidates, OrderIndependent;
    var a, b := RegularInode("/d//f", 1), RegularInode("/d/f", 2);
    DoubledSlash();
    RegularAccepted(a, 3, o);
    RegularAccepted(b, 2, o);
    var x, y := Entry("/d//f", "/d/", "f", Regular, a), Entry("/d/f", "/d", "f", Regular, b);
    assert "/d//f"[..3] == "/d/" && "/d//f"[4..] == "f" && "/d/f"[..2] == "/d" && "/d/f"[3..] == "f";
    TwoEntries(a, b, o, x, y);
    TwoCandidates(root, cands, x, y, o);
    CandidatesAreAddable([a, b], o, root, cands);
    OrderIndependentIff(root, cands);
    assert Rivals(root, cands[x.key], cands[y.key]);
  }

  /** Two files in one directory: their order in the listing follows the hash map. */
  lemma TwoFilesReorder(o: Outside, root: Tree, cands: map<string, Entry>)
    requires o.safe("a") && o.safe("b")
    requires var es := Entries([RegularInode("/a", 1), RegularInode("/b", 2)], o);
      Matches(root, es) && Candidates(cands, es, o)
    ensures Addable(root, cands) && OrderIndependent(root, cands) && !ListingIndependent(root, cands)
  {
    hide Accept, StatusAt, Matches, Candidates, OrderIndependent, ListingIndependent;
    var a, b := RegularInode("/a", 1), RegularInode("/b", 2);
    OneName("a");
    OneName("b");
    assert "/" + "a" == "/a" && "/" + "b" == "/b";
    RegularAccepted(a, 0, o);
    RegularAccepted(b, 0, o);
    var x, y := Entry("/a", "", "a", Regular, a), Entry("/b", "", "b", Regular, b);
    assert "/a"[..0] == "" && "/a"[1..] == "a" && "/b"[..0] == "" && "/b"[1..] == "b";
    TwoEntries(a, b, o, x, y);
    TwoCandidates(root, cands, x, y, o);
    CandidatesAreAddable([a, b], o, root, cands);
    assert x.Path() == ["a"] && y.Path() == ["b"] && x.Path() != y.Path();
    OrderIndependentIff(root, cands);
    ListingIndependentIff(root, cands);
    assert Neighbours(root, cands[x.key], cands[y.key]);
  }
}
