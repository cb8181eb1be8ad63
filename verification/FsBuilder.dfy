/** The two-pass construction of the recovered file tree /fs (src/app/engine.cpp). */
module FsBuilder {
  import opened Words
  import opened FsPath
  import opened FsTree

  /** A cached inode, as far as /fs looks at it. */
  datatype Inode = Inode(path: string, fs: string, mode: nat, size: nat, nrCached: nat, id: nat)

  datatype Kind = Directory | Regular | Symlink | Other

  function KindOf(ci: Inode): Kind {
    var t := ci.mode / 0x1000 % 16;
    if t == 8 then Regular else if t == 4 then Directory else if t == 10 then Symlink else Other
  }

  /** Page-cache recovery statistics of an inode, from code outside this model. */
  datatype Stats = Stats(pagesCopied: nat, bytesNonzero: nat, bytesCopied: nat, pagesDropped: nat)

  /** The two outside functions: which component names are display safe, and recovery statistics. */
  datatype Outside = Outside(safe: string -> bool, stats: Inode -> Stats)

  datatype Content = Link(target: Inode) | Recovered(inode: Inode)

  type Tree = seq<Child<Content>>

  // ---------- which inodes take part, and where ----------

  const PSEUDO: set<string> := {
    "sysfs", "proc", "procfs", "cgroup", "cgroup2", "securityfs", "debugfs", "tracefs", "configfs",
    "bpf", "pstore", "efivarfs", "devtmpfs", "devpts", "tmpfs", "mqueue", "hugetlbfs", "autofs",
    "rpc_pipefs", "fusectl", "fuse", "selinuxfs", "nsfs", "binfmt_misc"
  }
  const RUNTIME_ROOTS: set<string> := {"dev", "media", "mnt", "proc", "root", "run", "sys", "tmp"}
  const SYSTEM_ROOTS: set<string> := {
    "bin", "boot", "etc", "home", "lib", "lib64", "opt", "sbin", "srv", "usr", "var"
  }

  predicate ExposeInFsTree(ci: Inode) {
    ci.fs !in PSEUDO
  }

  /** A synthetic /root prefix before a system directory is dropped; runtime roots below it are hidden. */
  function NormaliseFsPath(path: string): string {
    if path == "/systemd" || "/systemd/" <= path then ""
    else if path == "/root" then ""
    else if !("/root/" <= path) then path
    else
      var rest := path[6..];
      var first := rest[..NextSlash(rest, 0)];
      if first in RUNTIME_ROOTS then ""
      else if first in SYSTEM_ROOTS then "/" + rest
      else path
  }

  /** validate_recovered_fs_path. */
  predicate ValidPath(path: string, o: Outside) {
    && path != "" && path[0] == '/' && |path| <= 4096
    && Components(path) != [] && forall c | c in Components(path) :: o.safe(c)
  }

  function SanitiseComponent(s: string, o: Outside): string {
    if ValidPath("/" + s, o) then s else ""
  }

  /** Outside /root and /systemd a path stays as it is. */
  lemma PlainPathStays(path: string)
    requires path != "/root" && !("/root/" <= path) && path != "/systemd" && !("/systemd/" <= path)
    ensures NormaliseFsPath(path) == path
  {
  }

  /** Below /root the first name decides: runtime directories are hidden, system directories move up, others stay. */
  lemma RootPathMoves(first: string, rest: string)
    requires first != "" && '/' !in first && (rest == "" || rest[0] == '/')
    ensures var path := "/root/" + first + rest;
      NormaliseFsPath(path)
      == if first in ["dev", "media", "mnt", "proc", "root", "run", "sys", "tmp"] then ""
         else if first in ["bin", "boot", "etc", "home", "lib", "lib64", "opt", "sbin", "srv", "usr", "var"]
         then "/" + first + rest
         else path
  {
    hide NextSlash;
    var tail := first + rest;
    BelowRoot("/root/" + first + rest, tail);
    SlashAfter(tail, 0, |first|);
    assert tail[..|first|] == first;
    assert "/" + tail == "/" + first + rest;
  }

  lemma BelowRoot(path: string, tail: string)
    requires path == "/root/" + tail && tail != ""
    ensures "/root/" <= path && path[6..] == tail && path != "/root" && path != "/systemd" && !("/systemd/" <= path)
  {
    assert path[1] == 'r';
  }

  /** The type bits of a mode, S_IFMT in stat.h. */
  lemma KindsByMode(ci: Inode, perm: nat)
    requires perm < 0x1000
    ensures KindOf(ci.(mode := 0x8000 + perm)).Regular? && KindOf(ci.(mode := 0x4000 + perm)).Directory?
    ensures KindOf(ci.(mode := 0xA000 + perm)).Symlink? && KindOf(ci.(mode := 0xC000 + perm)).Other?
    ensures KindOf(ci.(mode := 0x1000 + perm)).Other? && KindOf(ci.(mode := 0x2000 + perm)).Other?
    ensures KindOf(ci.(mode := 0x6000 + perm)).Other?
  {
  }

  /** An inode with its place: the map key, and the directory and name it is split into. */
  datatype Entry = Entry(key: string, dirname: string, basename: string, kind: Kind, inode: Inode) {
    function Dir(): seq<string> { Components(dirname) }
    function Path(): seq<string> { Components(dirname) + [basename] }
  }

  function Accept(ci: Inode, o: Outside): Option<Entry> {
    if ci.path == "" || ci.path == "/" || ci.path == "(null)" then None
    else if !ExposeInFsTree(ci) then None
    else
      var path := NormaliseFsPath(ci.path);
      if path == "" || path[0] != '/' || !ValidPath(path, o) then None
      else
        var slash := LastSlash(path);
        var basename := SanitiseComponent(path[slash + 1..], o);
        if basename == "" then None
        else Some(Entry(path, path[..slash], basename, KindOf(ci), ci))
  }

  /** Never shown: pseudo filesystems, paths not absolute or over 4096 long, /root itself, /systemd and below. */
  lemma NeverShown(ci: Inode, o: Outside, rest: string)
    requires rest == "" || rest[0] == '/'
    requires
      || ci.path in ["", "/", "(null)", "/root", "/systemd" + rest]
      || (ci.path != "" && ci.path[0] != '/')
      || (|ci.path| > 4096 && NormaliseFsPath(ci.path) == ci.path)
      || ci.fs in [
      "sysfs", "proc", "procfs", "cgroup", "cgroup2", "securityfs", "debugfs", "tracefs", "configfs",
      "bpf", "pstore", "efivarfs", "devtmpfs", "devpts", "tmpfs", "mqueue", "hugetlbfs", "autofs",
      "rpc_pipefs", "fusectl", "fuse", "selinuxfs", "nsfs", "binfmt_misc"]
    ensures Accept(ci, o).None?
  {
    hide NextSlash, ComponentsFrom, SanitiseComponent;
    if ci.path == "/systemd" + rest && rest != "" {
      assert rest == "/" + rest[1..] && ci.path == "/systemd/" + rest[1..];
    }
  }

  /** An inode of a real filesystem under a safe absolute path outside /root is accepted under that path. */
  lemma PlainAccepted(ci: Inode, o: Outside)
    requires NormaliseFsPath(ci.path) == ci.path
    requires ci.fs !in [
      "sysfs", "proc", "procfs", "cgroup", "cgroup2", "securityfs", "debugfs", "tracefs", "configfs",
      "bpf", "pstore", "efivarfs", "devtmpfs", "devpts", "tmpfs", "mqueue", "hugetlbfs", "autofs",
      "rpc_pipefs", "fusectl", "fuse", "selinuxfs", "nsfs", "binfmt_misc"]
    requires 1 < |ci.path| <= 4096 && ci.path[0] == '/' && ci.path[|ci.path| - 1] != '/'
    requires forall c | c in Components(ci.path) :: o.safe(c)
    ensures Accept(ci, o).Some?
    ensures var e := Accept(ci, o).value;
      e.key == ci.path && e.inode == ci && e.kind == KindOf(ci) && e.dirname + "/" + e.basename == ci.path
  {
    hide NormaliseFsPath, ComponentsFrom, KindOf, ValidPath, SanitiseComponent;
    var path := ci.path;
    var slash := LastSlash(path);
    var base := path[slash + 1..];
    SplitAtSlash(path, 0, slash);
    assert base in Components(path);
    IsValid(path, o);
    SafeAlone(path, base, o);
    assert path == path[..slash] + "/" + base;
  }

  lemma IsValid(path: string, o: Outside)
    requires path != "" && path[0] == '/' && |path| <= 4096 && Components(path) != []
    requires forall c | c in Components(path) :: o.safe(c)
    ensures ValidPath(path, o)
  {
  }

  /** An accepted entry sits at its path's components, every one of them safe: no directory is refused later. */
  lemma AcceptedPath(ci: Inode, o: Outside)
    requires Accept(ci, o).Some?
    ensures var e := Accept(ci, o).value;
      && e.key != "" && e.key[0] == '/' && e.Path() == Components(e.key) && e.inode == ci && e.kind == KindOf(ci)
      && forall c | c in e.Path() :: SanitiseComponent(c, o) == c
  {
    hide ComponentsFrom, SanitiseComponent, ValidPath, NormaliseFsPath, KindOf, ExposeInFsTree;
    var e := Accept(ci, o).value;
    var path := e.key;
    ValidStart(path, o);
    var slash := LastSlash(path);
    SplitAtSlash(path, 0, slash);
    Sanitised(path[slash + 1..], o);
    forall c | c in Components(path) ensures SanitiseComponent(c, o) == c {
      SafeAlone(path, c, o);
    }
  }

  /** A component of a valid path is valid on its own. */
  lemma SafeAlone(path: string, c: string, o: Outside)
    requires ValidPath(path, o) && c in Components(path)
    ensures SanitiseComponent(c, o) == c
  {
    ShortComponents(path, 0, c);
    NoSlashLeft("/" + c, 1);
    assert ("/" + c)[1..] == c;
    assert Components("/" + c) == [c];
  }

  lemma Sanitised(s: string, o: Outside)
    ensures SanitiseComponent(s, o) == s || SanitiseComponent(s, o) == ""
  {
  }

  lemma ValidStart(path: string, o: Outside)
    requires ValidPath(path, o)
    ensures path != "" && path[0] == '/'
  {
  }

  lemma {:induction false} ShortComponents(s: string, i: nat, c: string)
    requires i <= |s| && c in ComponentsFrom(s, i)
    ensures |c| <= |s| - i && (i < |s| && s[i] == '/' ==> |c| < |s| - i)
    decreases |s| - i
  {
    if s[i] == '/' {
      ShortComponents(s, i + 1, c);
    } else {
      var j := NextSlash(s, i);
      if c != s[i..j] {
        ShortComponents(s, j, c);
      }
    }
  }

  /** The accepted entries, in inode order. */
  function Entries(inodes: seq<Inode>, o: Outside): seq<Entry> {
    if inodes == [] then []
    else
      Entries(inodes[..|inodes| - 1], o)
      + match Accept(inodes[|inodes| - 1], o) case None => [] case Some(e) => [e]
  }

  // ---------- which of several regular inodes wins ----------

  datatype Score = Score(pagesCopied: nat, bytesNonzero: nat, bytesCopied: nat, pagesDropped: nat,
                         saneSize: bool, nonPseudo: bool, nrCached: nat)

  function ScoreRegular(ci: Inode, o: Outside): Score {
    var st := if ci.size > 0 && ci.nrCached > 0 then o.stats(ci) else Stats(0, 0, 0, 0);
    Score(st.pagesCopied, st.bytesNonzero, st.bytesCopied, st.pagesDropped,
          0 < ci.size <= 4 * 1024 * 1024 * 1024, ExposeInFsTree(ci), ci.nrCached)
  }

  predicate BetterScore(a: Score, b: Score) {
    if a.pagesCopied != b.pagesCopied then a.pagesCopied > b.pagesCopied
    else if a.bytesNonzero != b.bytesNonzero then a.bytesNonzero > b.bytesNonzero
    else if a.bytesCopied != b.bytesCopied then a.bytesCopied > b.bytesCopied
    else if a.pagesDropped != b.pagesDropped then a.pagesDropped < b.pagesDropped
    else if a.saneSize != b.saneSize then a.saneSize
    else if a.nonPseudo != b.nonPseudo then a.nonPseudo
    else a.nrCached > b.nrCached
  }

  predicate BetterRegular(a: Inode, b: Inode, o: Outside) {
    BetterScore(ScoreRegular(a, o), ScoreRegular(b, o))
  }

  lemma BetterIsWeakOrder(a: Score, b: Score, c: Score)
    ensures !BetterScore(a, a)
    ensures BetterScore(a, b) && BetterScore(b, c) ==> BetterScore(a, c)
    ensures !BetterScore(a, b) && !BetterScore(b, c) ==> !BetterScore(a, c)
  {
  }

  /** The candidate kept for a key after the entries so far. */
  function Best(es: seq<Entry>, key: string, o: Outside): Option<Entry> {
    if es == [] then None
    else
      var before, e := Best(es[..|es| - 1], key, o), es[|es| - 1];
      if e.kind.Regular? && e.key == key && (before.None? || BetterRegular(e.inode, before.value.inode, o)) then Some(e)
      else before
  }

  predicate Candidate(e: Entry, key: string) {
    e.kind.Regular? && e.key == key
  }

  /** No candidate beats w, and w beats every earlier one. */
  ghost predicate FirstMaximal(es: seq<Entry>, key: string, o: Outside, w: nat) {
    && w < |es| && Candidate(es[w], key)
    && forall k | 0 <= k < |es| && Candidate(es[k], key) ::
         && !BetterRegular(es[k].inode, es[w].inode, o)
         && (k < w ==> BetterRegular(es[w].inode, es[k].inode, o))
  }

  lemma BetterOrder(a: Inode, b: Inode, c: Inode, o: Outside)
    ensures !BetterRegular(a, a, o)
    ensures BetterRegular(a, b, o) && !BetterRegular(c, b, o) ==> BetterRegular(a, c, o) && !BetterRegular(c, a, o)
  {
    hide BetterScore;
    var x, y, z := ScoreRegular(a, o), ScoreRegular(b, o), ScoreRegular(c, o);
    BetterIsWeakOrder(x, z, y);
    BetterIsWeakOrder(z, x, y);
    BetterIsWeakOrder(x, x, x);
  }

  /** It is the first of the regular entries of that key that no other beats. */
  lemma {:induction false} BestIsFirstMaximal(es: seq<Entry>, key: string, o: Outside)
    ensures Best(es, key, o).None? <==> forall k | 0 <= k < |es| :: !Candidate(es[k], key)
    ensures Best(es, key, o).Some? ==>
      exists w: nat :: w < |es| && FirstMaximal(es, key, o, w) && es[w] == Best(es, key, o).value
  {
    hide BetterRegular, FirstMaximal;
    if es != [] {
      var n := |es| - 1;
      var front, e := es[..n], es[n];
      assert es == front + [e];
      BestIsFirstMaximal(front, key, o);
      if Best(front, key, o).Some? {
        var w: nat :| w < n && FirstMaximal(front, key, o, w) && front[w] == Best(front, key, o).value;
        NextMaximal(front, e, key, o, w);
      } else if Candidate(e, key) {
        OnlyMaximal(front, e, key, o);
      }
    }
  }

  lemma NextMaximal(front: seq<Entry>, e: Entry, key: string, o: Outside, w: nat)
    requires FirstMaximal(front, key, o, w)
    ensures w < |front| && Candidate(front[w], key)
    ensures if Candidate(e, key) && BetterRegular(e.inode, front[w].inode, o)
      then FirstMaximal(front + [e], key, o, |front|) else FirstMaximal(front + [e], key, o, w)
  {
    hide BetterRegular;
    BetterOrder(e.inode, e.inode, e.inode, o);
    forall k | 0 <= k < |front| && Candidate(front[k], key)
      ensures BetterRegular(e.inode, front[w].inode, o) ==>
        BetterRegular(e.inode, front[k].inode, o) && !BetterRegular(front[k].inode, e.inode, o)
    {
      BetterOrder(e.inode, front[w].inode, front[k].inode, o);
    }
  }

  lemma OnlyMaximal(front: seq<Entry>, e: Entry, key: string, o: Outside)
    requires Candidate(e, key) && forall k | 0 <= k < |front| :: !Candidate(front[k], key)
    ensures FirstMaximal(front + [e], key, o, |front|)
  {
    BetterOrder(e.inode, e.inode, e.inode, o);
  }

  // ---------- the same, by what recovery says of the inodes ----------

  /** What speaks for showing an inode, most important first; of one with nothing cached recovery says nothing. */
  function Merits(ci: Inode, o: Outside): seq<int> {
    var recovered := ci.size > 0 && ci.nrCached > 0;
    var dropped: int := o.stats(ci).pagesDropped;
    [
      if recovered then o.stats(ci).pagesCopied else 0,
      if recovered then o.stats(ci).bytesNonzero else 0,
      if recovered then o.stats(ci).bytesCopied else 0,
      if recovered then -dropped else 0,
      if ci.size == 0 || ci.size > 0x1_0000_0000 then 0 else 1,
      if ci.fs in PSEUDO then 0 else 1,
      ci.nrCached
    ]
  }

  /** The first merit in which the two differ is greater in a. */
  ghost predicate Outdoes(a: Inode, b: Inode, o: Outside) {
    exists n: nat ::
      && n < |Merits(a, o)| == |Merits(b, o)|
      && Merits(a, o)[..n] == Merits(b, o)[..n] && Merits(a, o)[n] > Merits(b, o)[n]
  }

  lemma BetterOutdoes(a: Inode, b: Inode, o: Outside)
    ensures BetterRegular(a, b, o) <==> Outdoes(a, b, o)
  {
    hide BetterRegular, Merits;
    var x, y := Merits(a, o), Merits(b, o);
    BetterAtFirst(a, b, o);
    SamePrefix(x, y);
    var d := FirstDifference(x, y, 0);
    assert x[..d] == y[..d];
    if n: nat :| n < |x| && x[..n] == y[..n] && x[n] > y[n] {
      assert d == n;
    }
  }

  lemma BetterAtFirst(a: Inode, b: Inode, o: Outside)
    ensures |Merits(a, o)| == |Merits(b, o)|
    ensures var x, y := Merits(a, o), Merits(b, o);
      var d := FirstDifference(x, y, 0);
      BetterRegular(a, b, o) <==> d < |x| && x[d] > y[d]
  {
    hide FirstDifference;
    var x, y := Merits(a, o), Merits(b, o);
    var d := FirstDifference(x, y, 0);
    assert d > 0 ==> x[0] == y[0];
    assert d > 1 ==> x[1] == y[1];
    assert d > 2 ==> x[2] == y[2];
    assert d > 3 ==> x[3] == y[3];
    assert d > 4 ==> x[4] == y[4];
    assert d > 5 ==> x[5] == y[5];
    assert d > 6 ==> x[6] == y[6];
  }

  function FirstDifference(x: seq<int>, y: seq<int>, n: nat): (d: nat)
    requires n <= |x| == |y|
    ensures n <= d <= |x| && (forall i | n <= i < d :: x[i] == y[i]) && (d < |x| ==> x[d] != y[d])
    decreases |x| - n
  {
    if n == |x| || x[n] != y[n] then n else FirstDifference(x, y, n + 1)
  }

  lemma SamePrefix(x: seq<int>, y: seq<int>)
    requires |x| == |y|
    ensures forall n: nat | n < |x| && x[..n] == y[..n] :: forall i | 0 <= i < n :: x[i] == y[i]
  {
    forall n: nat, i: nat | n < |x| && x[..n] == y[..n] && i < n ensures x[i] == y[i] {
      assert x[..n][i] == y[..n][i];
    }
  }

  /** Of the regular inodes accepted at p this is one that none outdoes, and it outdoes those before it. */
  ghost predicate ShowsFirstOutstanding(es: seq<Entry>, o: Outside, p: seq<string>, shown: Inode) {
    exists w: nat ::
      && w < |es| && es[w].kind.Regular? && es[w].Path() == p && es[w].inode == shown
      && forall k | 0 <= k < |es| && es[k].kind.Regular? && es[k].Path() == p ::
           !Outdoes(es[k].inode, shown, o) && (k < w ==> Outdoes(shown, es[k].inode, o))
  }

  // ---------- walking or creating directories ----------

  lemma MakeDirsNext(root: Tree, dir: seq<string>, c: string)
    ensures MakeDirs(root, dir + [c]) == EnsureAt(MakeDirs(root, dir), dir, c)
  {
    assert (dir + [c])[..|dir|] == dir;
  }

  /** Skips slashes from i and measures the component there, if any. */
  method NextComponent(path: string, i: nat) returns (from: nat, j: nat)
    requires i <= |path|
    ensures i <= from <= j <= |path|
    ensures from == j ==> ComponentsFrom(path, i) == []
    ensures from < j ==> ComponentsFrom(path, i) == [path[from..j]] + ComponentsFrom(path, j)
  {
    from := i;
    while from < |path| && path[from] == '/'
      invariant i <= from <= |path| && ComponentsFrom(path, from) == ComponentsFrom(path, i)
    {
      from := from + 1;
    }
    j := from;
    while j < |path| && path[j] != '/'
      invariant from <= j <= |path| && NextSlash(path, j) == NextSlash(path, from)
    {
      j := j + 1;
    }
  }

  /** get_or_make_dir: one component after another; a refused one stops the walk and is reported. */
  method GetOrMakeDir(root: Tree, path: string, o: Outside) returns (tree: Tree, dir: seq<string>, ok: bool)
    ensures ok <==> forall c | c in Components(path) :: SanitiseComponent(c, o) == c
    ensures ok ==> dir == Components(path)
    ensures dir <= Components(path) && tree == MakeDirs(root, dir)
  {
    hide ValidPath, ComponentsFrom, EnsureAt, StatusAt;
    tree, dir := root, [];
    var i := 0;
    while i < |path|
      invariant 0 <= i <= |path|
      invariant dir + ComponentsFrom(path, i) == Components(path)
      invariant forall c | c in dir :: SanitiseComponent(c, o) == c
      invariant tree == MakeDirs(root, dir)
    {
      var from, j := NextComponent(path, i);
      if from == j { return tree, dir, true; }
      var comp := path[from..j];
      assert comp in Components(path);
      if SanitiseComponent(comp, o) == "" { return tree, dir, false; }
      Regroup(dir, comp, ComponentsFrom(path, j));
      MakeDirsNext(root, dir, comp);
      tree := EnsureAt(tree, dir, comp);
      dir := dir + [comp];
      i := j;
    }
    NoSlashLeft(path, i);
    return tree, dir, true;
  }

  lemma Regroup(a: seq<string>, b: string, c: seq<string>)
    ensures a + ([b] + c) == (a + [b]) + c
  {
  }

  // ---------- pass one: directories, symlinks, candidates ----------

  /** Entry e makes p a directory: as a directory itself, or as an ancestor. */
  ghost predicate MakesDir(e: Entry, p: seq<string>) {
    Below(p, e.Path()) || (e.kind.Directory? && e.Path() == p)
  }

  ghost predicate IsDirPath(es: seq<Entry>, p: seq<string>) {
    exists e :: e in es && MakesDir(e, p)
  }

  function FirstLink(es: seq<Entry>, p: seq<string>): Option<Inode> {
    if es == [] then None
    else
      var before, e := FirstLink(es[..|es| - 1], p), es[|es| - 1];
      if before.None? && e.kind.Symlink? && e.Path() == p then Some(e.inode) else before
  }

  /** Directories win over everything; otherwise the first symlink. */
  ghost function PassOneStatus(es: seq<Entry>, p: seq<string>): Status<Content> {
    if IsDirPath(es, p) then DirHere
    else
      match FirstLink(es, p)
      case Some(ci) => FileHere(Link(ci))
      case None => Absent
  }

  ghost predicate Matches(tree: Tree, es: seq<Entry>) {
    forall p | p != [] :: StatusAt(tree, p) == PassOneStatus(es, p)
  }

  lemma OneMoreEntry(es: seq<Entry>, e: Entry, p: seq<string>)
    ensures PassOneStatus(es + [e], p)
         == if MakesDir(e, p) then DirHere
            else if e.kind.Symlink? && e.Path() == p && PassOneStatus(es, p).Absent? then FileHere(Link(e.inode))
            else PassOneStatus(es, p)
  {
    var more := es + [e];
    assert more[..|es|] == es;
    if IsDirPath(es, p) {
      var x :| x in es && MakesDir(x, p);
      assert x in more;
    }
    if MakesDir(e, p) {
      assert e in more;
    }
    if IsDirPath(more, p) {
      var x :| x in more && MakesDir(x, p);
      assert x == e || x in es;
    }
  }

  /** An entry's parent chain, and the entry itself, added to a tree that shows the entries before it. */
  lemma EntryAdded(tree: Tree, es: seq<Entry>, e: Entry)
    requires Matches(tree, es)
    ensures var with' := MakeDirs(tree, e.Dir());
      && (e.kind.Directory? ==> Matches(EnsureAt(with', e.Dir(), e.basename), es + [e]))
      && (e.kind.Symlink? ==> Matches(AddAt(with', e.Dir(), e.basename, Link(e.inode)), es + [e]))
      && (e.kind.Regular? || e.kind.Other? ==> Matches(with', es + [e]))
  {
    var with' := MakeDirs(tree, e.Dir());
    forall p | p != []
      ensures e.kind.Directory? ==>
        StatusAt(EnsureAt(with', e.Dir(), e.basename), p) == PassOneStatus(es + [e], p)
      ensures e.kind.Symlink? ==>
        StatusAt(AddAt(with', e.Dir(), e.basename, Link(e.inode)), p) == PassOneStatus(es + [e], p)
      ensures e.kind.Regular? || e.kind.Other? ==> StatusAt(with', p) == PassOneStatus(es + [e], p)
    {
      hide StatusAt, PassOneStatus, MakeDirs, EnsureAt, AddAt;
      MakeDirsStatus(tree, e.Dir(), p);
      EnsureAtStatus(with', e.Dir(), e.basename, p);
      AddAtStatus(with', e.Dir(), e.basename, Link(e.inode), p);
      OneMoreEntry(es, e, p);
      assert Below(p, e.Path()) <==> p <= e.Dir();
    }
  }

  /** The candidate map after some entries. */
  ghost predicate Candidates(cands: map<string, Entry>, es: seq<Entry>, o: Outside) {
    forall key :: if key in cands then Best(es, key, o) == Some(cands[key]) else Best(es, key, o).None?
  }

  lemma CandidatesNext(cands: map<string, Entry>, es: seq<Entry>, e: Entry, o: Outside)
    requires Candidates(cands, es, o)
    ensures e.kind.Regular? && (e.key !in cands || BetterRegular(e.inode, cands[e.key].inode, o)) ==>
      Candidates(cands[e.key := e], es + [e], o)
    ensures !(e.kind.Regular? && (e.key !in cands || BetterRegular(e.inode, cands[e.key].inode, o))) ==>
      Candidates(cands, es + [e], o)
  {
    hide BetterRegular;
    assert (es + [e])[..|es|] == es;
    assert e.key in cands ==> Best(es, e.key, o) == Some(cands[e.key]);
    assert e.key !in cands ==> Best(es, e.key, o).None?;
  }

  lemma NoCandidates(o: Outside)
    ensures Candidates(map[], [], o)
  {
  }

  method PassOne(inodes: seq<Inode>, o: Outside) returns (tree: Tree, cands: map<string, Entry>)
    ensures Matches(tree, Entries(inodes, o)) && Candidates(cands, Entries(inodes, o), o)
  {
    hide Accept, MakeDirs, EnsureAt, AddAt, StatusAt, PassOneStatus, BetterRegular, Matches, Candidates;
    tree, cands := [], map[];
    EmptyTreeMatches();
    NoCandidates(o);
    for i := 0 to |inodes|
      invariant Matches(tree, Entries(inodes[..i], o))
      invariant Candidates(cands, Entries(inodes[..i], o), o)
    {
      assert inodes[..i + 1][..i] == inodes[..i];
      ghost var es := Entries(inodes[..i], o);
      var accepted := Accept(inodes[i], o);
      if accepted.None? {
        assert Entries(inodes[..i + 1], o) == es;
        continue;
      }
      var e := accepted.value;
      AcceptedPath(inodes[i], o);
      EntryAdded(tree, es, e);
      assert Entries(inodes[..i + 1], o) == es + [e] && (es + [e])[..|es|] == es;
      var dir, ok;
      assert forall c | c in Components(e.dirname) :: c in e.Path();
      tree, dir, ok := GetOrMakeDir(tree, e.dirname, o);
      CandidatesNext(cands, es, e, o);
      if e.kind.Directory? {
        tree := EnsureAt(tree, dir, e.basename);
      } else if e.kind.Regular? {
        if e.key !in cands || BetterRegular(e.inode, cands[e.key].inode, o) {
          cands := cands[e.key := e];
        }
      } else if e.kind.Symlink? {
        tree := AddAt(tree, dir, e.basename, Link(e.inode));
      }
    }
    assert inodes[..|inodes|] == inodes;
  }

  lemma EmptyTreeMatches()
    ensures Matches([], [])
  {
    forall p | p != [] ensures StatusAt<Content>([], p) == PassOneStatus([], p) {
    }
  }

  // ---------- pass two: the candidates, in whatever order the hash map gives them ----------

  /** A regular file is added unless something of its name is there. */
  function InsertAll(tree: Tree, order: seq<Entry>): (r: Tree)
    requires forall e | e in order :: IsDir(tree, e.Dir())
    ensures forall p | p != [] && StatusAt(tree, p).DirHere? :: StatusAt(r, p).DirHere?
  {
    if order == [] then tree
    else
      var n, e := |order| - 1, order[|order| - 1];
      var before := InsertAll(tree, order[..n]);
      assert e in order && IsDir(tree, e.Dir());
      assert IsDir(before, e.Dir());
      assert forall p | p != [] && StatusAt(tree, p).DirHere? ::
        StatusAt(AddAt(before, e.Dir(), e.basename, Recovered(e.inode)), p).DirHere? by {
        forall p | p != [] && StatusAt(tree, p).DirHere?
          ensures StatusAt(AddAt(before, e.Dir(), e.basename, Recovered(e.inode)), p).DirHere?
        {
          AddAtStatus(before, e.Dir(), e.basename, Recovered(e.inode), p);
        }
      }
      AddAt(before, e.Dir(), e.basename, Recovered(e.inode))
  }

  /** The first entry of an order that sits at p. */
  function FirstAt(order: seq<Entry>, p: seq<string>): Option<Entry> {
    if order == [] then None
    else
      var before, e := FirstAt(order[..|order| - 1], p), order[|order| - 1];
      if before.None? && e.Path() == p then Some(e) else before
  }

  lemma {:induction false} InsertAllStatus(tree: Tree, order: seq<Entry>, p: seq<string>)
    requires p != [] && forall e | e in order :: IsDir(tree, e.Dir())
    ensures StatusAt(InsertAll(tree, order), p)
         == if !StatusAt(tree, p).Absent? || FirstAt(order, p).None? then StatusAt(tree, p)
            else FileHere(Recovered(FirstAt(order, p).value.inode))
  {
    if order != [] {
      var n, e := |order| - 1, order[|order| - 1];
      InsertAllStatus(tree, order[..n], p);
      assert e in order;
      AddAtStatus(InsertAll(tree, order[..n]), e.Dir(), e.basename, Recovered(e.inode), p);
    }
  }

  /** The order visits every candidate, and nothing else, once. */
  ghost predicate Enumerates(order: seq<Entry>, cands: map<string, Entry>) {
    && (forall i, j | 0 <= i < j < |order| :: order[i] != order[j])
    && forall e :: e in order <==> e.key in cands && cands[e.key] == e
  }

  lemma {:induction false} BestIsMember(es: seq<Entry>, key: string, o: Outside)
    requires Best(es, key, o).Some?
    ensures var e := Best(es, key, o).value; e in es && e.key == key && e.kind.Regular?
  {
    hide BetterRegular;
    var before := Best(es[..|es| - 1], key, o);
    if Best(es, key, o) == before {
      BestIsMember(es[..|es| - 1], key, o);
    }
  }

  /** Pass one has made every ancestor of every entry. */
  lemma ParentsExist(tree: Tree, es: seq<Entry>, e: Entry)
    requires Matches(tree, es) && e in es
    ensures forall k | 0 < k <= |e.Dir()| :: IsDir(tree, e.Dir()[..k])
    ensures IsDir(tree, e.Dir())
  {
    hide StatusAt;
    var d := e.Dir();
    forall k | 0 < k <= |d| ensures StatusAt(tree, d[..k]).DirHere? {
      assert e.Path()[..k] == d[..k];
      assert MakesDir(e, d[..k]);
    }
    assert d[..|d|] == d;
  }

  /** Every candidate is stored under its own key and has a directory to go to. */
  ghost predicate Addable(tree: Tree, cands: map<string, Entry>) {
    forall key | key in cands ::
      && cands[key].key == key
      && IsDir(tree, cands[key].Dir())
      && forall k | 0 < k <= |cands[key].Dir()| :: IsDir(tree, cands[key].Dir()[..k])
  }

  ghost predicate NamesAreSafe(cands: map<string, Entry>, o: Outside) {
    forall key | key in cands :: forall c | c in cands[key].Dir() :: SanitiseComponent(c, o) == c
  }

  lemma DirsStay(tree: Tree, order: seq<Entry>, e: Entry)
    requires forall x | x in order :: IsDir(tree, x.Dir())
    requires IsDir(tree, e.Dir()) && forall k | 0 < k <= |e.Dir()| :: IsDir(tree, e.Dir()[..k])
    ensures IsDir(InsertAll(tree, order), e.Dir())
    ensures MakeDirs(InsertAll(tree, order), e.Dir()) == InsertAll(tree, order)
  {
    hide InsertAll, MakeDirs, StatusAt;
    MakeDirsSame(InsertAll(tree, order), e.Dir());
  }

  /** The second pass, visiting the candidates in an arbitrary order. */
  method PassTwo(root: Tree, cands: map<string, Entry>, o: Outside) returns (tree: Tree)
    requires Addable(root, cands) && NamesAreSafe(cands, o)
    ensures exists order :: Enumerates(order, cands) && tree == InsertAll(root, order)
  {
    hide MakeDirs, AddAt, StatusAt, IsDir, ValidPath, InsertAll, Visited;
    tree := root;
    NothingVisited(root, cands);
    ghost var order: seq<Entry> := [];
    var remaining := cands.Keys;
    while remaining != {}
      invariant remaining <= cands.Keys
      invariant Visited(order, cands, remaining) && forall x | x in order :: IsDir(root, x.Dir())
      invariant tree == InsertAll(root, order)
    {
      var key :| key in remaining;
      var e := cands[key];
      DirsStay(root, order, e);
      var dir, ok;
      tree, dir, ok := GetOrMakeDir(tree, e.dirname, o);
      tree := AddAt(tree, dir, e.basename, Recovered(e.inode));
      InsertedNext(root, order, e);
      VisitedNext(order, cands, remaining, key);
      order := order + [e];
      remaining := remaining - {key};
    }
    AllVisited(order, cands);
  }

  /** The order so far: every candidate but the remaining ones, once. */
  ghost predicate Visited(order: seq<Entry>, cands: map<string, Entry>, remaining: set<string>) {
    && (forall i, j | 0 <= i < j < |order| :: order[i] != order[j])
    && forall e :: e in order <==> e.key in cands && cands[e.key] == e && e.key !in remaining
  }

  lemma NothingVisited(root: Tree, cands: map<string, Entry>)
    ensures Visited([], cands, cands.Keys) && InsertAll(root, []) == root
  {
  }

  lemma VisitedNext(order: seq<Entry>, cands: map<string, Entry>, remaining: set<string>, key: string)
    requires Visited(order, cands, remaining) && key in remaining && key in cands && cands[key].key == key
    ensures Visited(order + [cands[key]], cands, remaining - {key})
  {
  }

  lemma AllVisited(order: seq<Entry>, cands: map<string, Entry>)
    requires Visited(order, cands, {})
    ensures Enumerates(order, cands)
  {
  }

  lemma InsertedNext(root: Tree, order: seq<Entry>, e: Entry)
    requires (forall x | x in order :: IsDir(root, x.Dir())) && IsDir(root, e.Dir())
    ensures forall x | x in order + [e] :: IsDir(root, x.Dir())
    ensures IsDir(InsertAll(root, order), e.Dir())
    ensures InsertAll(root, order + [e]) == AddAt(InsertAll(root, order), e.Dir(), e.basename, Recovered(e.inode))
  {
    hide StatusAt, AddAt;
    assert (order + [e])[..|order|] == order;
  }

  // ---------- what the whole construction gives ----------

  /** The tree at p: a directory, else the first symlink, else the best regular inode. */
  ghost function Expected(es: seq<Entry>, o: Outside, p: seq<string>): Status<Content> {
    if !PassOneStatus(es, p).Absent? || !Proper(p) then PassOneStatus(es, p)
    else
      match Best(es, Join(p), o)
      case None => Absent
      case Some(e) => FileHere(Recovered(e.inode))
  }

  lemma {:induction false} EntriesAreAccepted(inodes: seq<Inode>, o: Outside, e: Entry)
    requires e in Entries(inodes, o)
    ensures Rooted(e) && e.Path() == Components(e.key) && forall c | c in e.Path() :: SanitiseComponent(c, o) == c
  {
    hide Accept;
    var n := |inodes| - 1;
    if e in Entries(inodes[..n], o) {
      EntriesAreAccepted(inodes[..n], o, e);
    } else {
      AcceptedPath(inodes[n], o);
    }
  }

  lemma {:induction false} FirstAtIs(order: seq<Entry>, p: seq<string>)
    ensures match FirstAt(order, p)
      case Some(e) => e in order && e.Path() == p
      case None => forall e | e in order :: e.Path() != p
  {
    if order != [] {
      FirstAtIs(order[..|order| - 1], p);
    }
  }

  /** An entry under an absolute path, split at its slashes. */
  ghost predicate Rooted(e: Entry) {
    e.key != "" && e.key[0] == '/' && e.Path() == Components(e.key)
  }

  /** Without an empty component the key is the joined path. */
  lemma KeyIsCanonical(e: Entry)
    requires Rooted(e) && NoEmptyComponent(e.key, 0)
    ensures e.Path() == Components(e.key) && Canonical(e.key)
  {
    hide ComponentsFrom, Join, NoEmptyComponent;
    CanonicalFrom(e.key, 0);
    assert e.key[0..] == e.key;
  }

  lemma PathsAreProper(e: Entry)
    requires e.Path() == Components(e.key)
    ensures Proper(e.Path())
  {
  }

  /** When no key has an empty component, a path has one key, and the order of the second pass is immaterial. */
  lemma TreeIsExpected(root: Tree, cands: map<string, Entry>, es: seq<Entry>, o: Outside, order: seq<Entry>,
                       p: seq<string>)
    requires Matches(root, es) && Candidates(cands, es, o) && Addable(root, cands) && Enumerates(order, cands)
    requires forall e | e in es :: Rooted(e) && NoEmptyComponent(e.key, 0)
    requires p != []
    ensures StatusAt(InsertAll(root, order), p) == Expected(es, o, p)
  {
    hide StatusAt, BetterRegular, InsertAll, Join, Proper, Components, NoEmptyComponent, Rooted, Expected;
    forall e | e in es ensures e.Path() == Components(e.key) && Canonical(e.key) {
      KeyIsCanonical(e);
    }
    CanonicalKeysDecide(root, cands, es, o, order, p);
  }

  lemma CanonicalKeysDecide(root: Tree, cands: map<string, Entry>, es: seq<Entry>, o: Outside, order: seq<Entry>,
                            p: seq<string>)
    requires Matches(root, es) && Candidates(cands, es, o) && Addable(root, cands) && Enumerates(order, cands)
    requires forall e | e in es :: e.Path() == Components(e.key) && Canonical(e.key)
    requires p != []
    ensures StatusAt(InsertAll(root, order), p) == Expected(es, o, p)
  {
    hide StatusAt, BetterRegular, InsertAll, Join, Proper, Components;
    InsertAllStatus(root, order, p);
    FirstAtIs(order, p);
    if PassOneStatus(es, p).Absent? {
      var key := Join(p);
      match FirstAt(order, p) {
        case Some(e) =>
          BestIsMember(es, e.key, o);
          PathsAreProper(e);
          assert e.key == key;
        case None =>
          if Best(es, key, o).Some? && Proper(p) {
            BestIsMember(es, key, o);
            assert Best(es, key, o).value in order;
            ComponentsOfJoin(p);
          }
      }
    }
  }

  /** Directories and symlinks as pass one leaves them; elsewhere one of the candidates for that path, if any. */
  ghost predicate ShowsSomeBest(tree: Tree, es: seq<Entry>, o: Outside, p: seq<string>)
    requires p != []
  {
    if !PassOneStatus(es, p).Absent? then StatusAt(tree, p) == PassOneStatus(es, p)
    else if exists e :: e in es && e.kind.Regular? && e.Path() == p then
      exists key :: Best(es, key, o).Some? && Best(es, key, o).value.Path() == p
                 && StatusAt(tree, p) == FileHere(Recovered(Best(es, key, o).value.inode))
    else StatusAt(tree, p) == Absent
  }

  /**
   The /fs tree. Whatever the inodes, every directory and symlink is as expected,
   and any other path shows one of the best candidates kept for it. If no accepted
   path has an empty component, the whole tree is determined: at every path a
   directory if an accepted directory or an ancestor of any accepted path is
   there, else the first symlink, else the first best regular inode, one that no other
   accepted there outdoes in what recovery found and that outdoes those before it.
   */
  method BuildFs(inodes: seq<Inode>, o: Outside) returns (tree: Tree)
    ensures var es := Entries(inodes, o);
      (forall e | e in es :: NoEmptyComponent(e.key, 0)) ==>
      forall p | p != [] :: StatusAt(tree, p) == Expected(es, o, p)
    ensures var es := Entries(inodes, o);
      (forall e | e in es :: NoEmptyComponent(e.key, 0)) ==>
      forall p, ci | p != [] && StatusAt(tree, p) == FileHere(Recovered(ci)) :: ShowsFirstOutstanding(es, o, p, ci)
    ensures forall p | p != [] :: ShowsSomeBest(tree, Entries(inodes, o), o, p)
  {
    hide StatusAt, BetterRegular, InsertAll, Join, Proper, Components, PassOneStatus, IsDir, SanitiseComponent;
    hide Accept, Expected, Rooted, NoEmptyComponent, ShowsFirstOutstanding;
    var es := Entries(inodes, o);
    var root, cands := PassOne(inodes, o);
    CandidatesAreAddable(inodes, o, root, cands);
    tree := PassTwo(root, cands, o);
    ghost var order :| Enumerates(order, cands) && tree == InsertAll(root, order);
    forall e | e in es ensures Rooted(e) && e.Path() == Components(e.key) {
      EntriesAreAccepted(inodes, o, e);
    }
    forall p | p != []
      ensures (forall e | e in es :: NoEmptyComponent(e.key, 0)) ==> StatusAt(tree, p) == Expected(es, o, p)
      ensures ShowsSomeBest(tree, es, o, p)
    {
      if forall e | e in es :: NoEmptyComponent(e.key, 0) {
        TreeIsExpected(root, cands, es, o, order, p);
      }
      SomeBestShown(root, cands, es, o, order, p);
    }
    if forall e | e in es :: NoEmptyComponent(e.key, 0) {
      forall p, ci | p != [] && StatusAt(tree, p) == FileHere(Recovered(ci))
        ensures ShowsFirstOutstanding(es, o, p, ci)
      {
        ShownOutstanding(es, o, p, ci);
      }
    }
  }

  lemma ShownOutstanding(es: seq<Entry>, o: Outside, p: seq<string>, ci: Inode)
    requires forall e | e in es :: Rooted(e) && NoEmptyComponent(e.key, 0)
    requires Expected(es, o, p) == FileHere(Recovered(ci))
    ensures ShowsFirstOutstanding(es, o, p, ci)
  {
    hide BetterRegular, Outdoes, Join, Components, NoEmptyComponent, Rooted, Proper;
    var key := Join(p);
    BestIsFirstMaximal(es, key, o);
    var w: nat :| w < |es| && FirstMaximal(es, key, o, w) && es[w] == Best(es, key, o).value;
    forall k | 0 <= k < |es| ensures es[k].Path() == p <==> es[k].key == key {
      assert es[k] in es;
      KeyIsPath(es[k], p);
    }
    forall k | 0 <= k < |es| && Candidate(es[k], key)
      ensures BetterRegular(es[k].inode, ci, o) <==> Outdoes(es[k].inode, ci, o)
      ensures BetterRegular(ci, es[k].inode, o) <==> Outdoes(ci, es[k].inode, o)
    {
      BetterOutdoes(es[k].inode, ci, o);
      BetterOutdoes(ci, es[k].inode, o);
    }
  }

  lemma KeyIsPath(e: Entry, p: seq<string>)
    requires Rooted(e) && NoEmptyComponent(e.key, 0) && Proper(p)
    ensures e.Path() == p <==> e.key == Join(p)
  {
    hide NoEmptyComponent, ComponentsFrom;
    KeyIsCanonical(e);
    ComponentsOfJoin(p);
  }

  lemma SomeBestShown(root: Tree, cands: map<string, Entry>, es: seq<Entry>, o: Outside, order: seq<Entry>,
                      p: seq<string>)
    requires Matches(root, es) && Candidates(cands, es, o) && Addable(root, cands) && Enumerates(order, cands)
    requires forall e | e in es :: e.Path() == Components(e.key)
    requires p != []
    ensures ShowsSomeBest(InsertAll(root, order), es, o, p)
  {
    hide StatusAt, BetterRegular, InsertAll, Components, PassOneStatus;
    InsertAllStatus(root, order, p);
    FirstAtIs(order, p);
    if PassOneStatus(es, p).Absent? {
      match FirstAt(order, p) {
        case Some(e) =>
          BestIsMember(es, e.key, o);
          assert Best(es, e.key, o) == Some(e);
        case None =>
          if e :| e in es && e.kind.Regular? && e.Path() == p {
            KeyHasBest(es, e, o);
            BestIsMember(es, e.key, o);
          }
      }
    }
  }

  lemma {:induction false} KeyHasBest(es: seq<Entry>, e: Entry, o: Outside)
    requires e in es && e.kind.Regular?
    ensures Best(es, e.key, o).Some?
  {
    hide BetterRegular;
    if e in es[..|es| - 1] {
      KeyHasBest(es[..|es| - 1], e, o);
    }
  }

  lemma CandidatesAreAddable(inodes: seq<Inode>, o: Outside, root: Tree, cands: map<string, Entry>)
    requires Matches(root, Entries(inodes, o)) && Candidates(cands, Entries(inodes, o), o)
    ensures Addable(root, cands) && NamesAreSafe(cands, o)
  {
    hide StatusAt, BetterRegular, Components, IsDir, Matches;
    var es := Entries(inodes, o);
    forall key | key in cands
      ensures cands[key].key == key && IsDir(root, cands[key].Dir())
      ensures forall k | 0 < k <= |cands[key].Dir()| :: IsDir(root, cands[key].Dir()[..k])
      ensures forall c | c in cands[key].Dir() :: SanitiseComponent(c, o) == c
    {
      BestIsMember(es, key, o);
      ParentsExist(root, es, cands[key]);
      EntriesAreAccepted(inodes, o, cands[key]);
      assert forall c | c in cands[key].Dir() :: c in cands[key].Path();
    }
  }
}
