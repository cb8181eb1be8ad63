/**
 The mount tree and the global paths in it (src/os/linux/mountinfo.cpp,
 src/os/linux/dentry_path.cpp). Kernel structures are read field by field; a read
 that fails is None.
 */
module MountTree {
  import opened Words

  datatype Heap = Heap(
    parent: nat -> Option<nat>,     // dentry.d_parent
    name: nat -> string,            // a dentry's own name
    mntParent: nat -> Option<nat>,  // mount.mnt_parent
    mntPoint: nat -> Option<nat>,   // mount.mnt_mountpoint
    link: nat -> Option<nat>,       // the pointer stored in a list_head
    headOff: nat,                   // mount.mnt_mounts
    childOff: nat,                  // mount.mnt_child
    dentryOk: bool,                 // whether the offsets could be resolved
    mountOk: bool)

  // ---------- dentry_to_path ----------

  const GUARD := 256

  predicate Visible(name: string) { name != "/" && name != "" }

  /** Where the walk goes from the root of a mounted filesystem: the mountpoint, seen from the parent mount. */
  function Hop(h: Heap, mount: Option<nat>): Option<(nat, nat)> {
    if !h.mountOk || mount.None? then None
    else
      match (h.mntParent(mount.value), h.mntPoint(mount.value))
      case (Some(p), Some(d)) => if p == mount.value || p == 0 || d == 0 then None else Some((d, p))
      case _ => None
  }

  /** The names met going up, innermost first. */
  function Parts(h: Heap, cur: nat, mount: Option<nat>, fuel: nat): seq<string>
    decreases fuel
  {
    if cur == 0 || fuel == 0 || h.parent(cur).None? then []
    else
      var p := h.parent(cur).value;
      if p != cur then
        (if Visible(h.name(cur)) then [h.name(cur)] else []) + Parts(h, p, mount, fuel - 1)
      else
        match Hop(h, mount)
        case None => []
        case Some((d, m)) => Parts(h, d, Some(m), fuel - 1)
  }

  /** The components outermost first, each after a slash. */
  function Slashed(parts: seq<string>): string {
    if parts == [] then "" else Slashed(parts[1..]) + "/" + parts[0]
  }

  function Join(parts: seq<string>): string {
    if parts == [] then "/" else Slashed(parts)
  }

  function PathOf(h: Heap, dentry: nat, mount: Option<nat>): string {
    if dentry == 0 then "(null)"
    else if !h.dentryOk then "(no-dentry-offsets)"
    else Join(Parts(h, dentry, mount, GUARD))
  }

  /** One turn of the walk, with the names collected before it. */
  lemma PartsStep(h: Heap, cur: nat, mount: Option<nat>, fuel: nat, before: seq<string>)
    ensures cur == 0 || fuel == 0 || h.parent(cur).None? ==> before + Parts(h, cur, mount, fuel) == before
    ensures cur != 0 && fuel > 0 && h.parent(cur).Some? ==>
      var p := h.parent(cur).value;
      before + Parts(h, cur, mount, fuel)
        == if p != cur then
             (if Visible(h.name(cur)) then before + [h.name(cur)] else before) + Parts(h, p, mount, fuel - 1)
           else
             match Hop(h, mount)
             case None => before
             case Some((d, m)) => before + Parts(h, d, Some(m), fuel - 1)
  {
    hide Hop, Visible;
  }

  lemma PartsHere(h: Heap, cur: nat, mount: Option<nat>, fuel: nat)
    requires cur != 0 && fuel > 0 && h.parent(cur).Some?
    ensures var p := h.parent(cur).value;
      Parts(h, cur, mount, fuel)
        == if p != cur then (if Visible(h.name(cur)) then [h.name(cur)] else []) + Parts(h, p, mount, fuel - 1)
           else FromRoot(h, mount, fuel - 1)
  {
    hide Hop, Visible;
  }

  method DentryToPath(h: Heap, dentry: nat, mount: Option<nat>) returns (path: string)
    ensures path == PathOf(h, dentry, mount)
  {
    hide Hop, Join, Parts;
    if dentry == 0 { return "(null)"; }
    if !h.dentryOk { return "(no-dentry-offsets)"; }
    var parts: seq<string> := [];
    var cur, curMount := dentry, mount;
    var depth := 0;
    while cur != 0 && depth < GUARD
      invariant depth <= GUARD
      invariant parts + Parts(h, cur, curMount, GUARD - depth) == Parts(h, dentry, mount, GUARD)
      decreases GUARD - depth
    {
      PartsStep(h, cur, curMount, GUARD - depth, parts);
      depth := depth + 1;
      if h.parent(cur).None? { break; }
      var p := h.parent(cur).value;
      if p != cur {
        var n := h.name(cur);
        if n != "/" && n != "" { parts := parts + [n]; }
        cur := p;
        continue;
      }
      var hop := Hop(h, curMount);
      if hop.None? { break; }
      cur, curMount := hop.value.0, Some(hop.value.1);
    }
    if cur == 0 || depth == GUARD { PartsStep(h, cur, curMount, GUARD - depth, parts); }
    assert parts == Parts(h, dentry, mount, GUARD);
    path := JoinParts(parts);
  }

  method JoinParts(parts: seq<string>) returns (path: string)
    ensures path == Join(parts)
  {
    if parts == [] { return "/"; }
    path := "";
    var i := |parts|;
    while i > 0
      invariant 0 <= i <= |parts| && path == Slashed(parts[i..])
    {
      i := i - 1;
      assert parts[i..][1..] == parts[i + 1..];
      path := path + "/" + parts[i];
    }
    assert parts[0..] == parts;
  }

  // ---------- paths compose ----------

  /** Dentries from ds[0] up to the root of its filesystem. */
  ghost predicate Chain(h: Heap, ds: seq<nat>) {
    && ds != [] && 0 !in ds
    && (forall i | 0 <= i < |ds| - 1 :: h.parent(ds[i]) == Some(ds[i + 1]) && ds[i + 1] != ds[i])
    && h.parent(ds[|ds| - 1]) == Some(ds[|ds| - 1])
  }

  /** The names on a chain, innermost first, without the root's. */
  function Names(h: Heap, ds: seq<nat>): seq<string> {
    if |ds| <= 1 then [] else (if Visible(h.name(ds[0])) then [h.name(ds[0])] else []) + Names(h, ds[1..])
  }

  /** The walk from here comes to its own end within n steps. */
  ghost predicate Ends(h: Heap, cur: nat, mount: Option<nat>, n: nat)
    decreases n
  {
    || cur == 0 || h.parent(cur).None?
    || (n > 0 &&
        if h.parent(cur).value != cur then Ends(h, h.parent(cur).value, mount, n - 1)
        else match Hop(h, mount)
             case None => true
             case Some((d, m)) => Ends(h, d, Some(m), n - 1))
  }

  lemma {:induction false} MoreFuel(h: Heap, cur: nat, mount: Option<nat>, n: nat, fuel: nat)
    requires Ends(h, cur, mount, n) && n <= fuel
    ensures Parts(h, cur, mount, fuel) == Parts(h, cur, mount, n)
    decreases n
  {
    hide Hop, Visible;
    if cur != 0 && h.parent(cur).Some? {
      var p := h.parent(cur).value;
      if p != cur {
        MoreFuel(h, p, mount, n - 1, fuel - 1);
      } else if Hop(h, mount).Some? {
        MoreFuel(h, Hop(h, mount).value.0, Some(Hop(h, mount).value.1), n - 1, fuel - 1);
      }
    }
  }

  lemma NamesStep(h: Heap, ds: seq<nat>)
    requires ds != []
    ensures Names(h, ds)
         == if |ds| == 1 then [] else (if Visible(h.name(ds[0])) then [h.name(ds[0])] else []) + Names(h, ds[1..])
  {
    hide Visible;
  }

  /** The names met after the root of a mounted filesystem. */
  function FromRoot(h: Heap, mount: Option<nat>, fuel: nat): seq<string> {
    match Hop(h, mount)
    case None => []
    case Some((d, m)) => Parts(h, d, Some(m), fuel)
  }

  lemma {:induction false} UpTheChain(h: Heap, ds: seq<nat>, mount: Option<nat>, fuel: nat)
    requires Chain(h, ds) && |ds| <= fuel
    ensures Parts(h, ds[0], mount, fuel) == Names(h, ds) + FromRoot(h, mount, fuel - |ds|)
    decreases |ds|
  {
    hide Visible, Parts, Names, Chain, FromRoot, Hop;
    ChainHead(h, ds);
    NamesStep(h, ds);
    PartsHere(h, ds[0], mount, fuel);
    if |ds| > 1 {
      UpTheChain(h, ds[1..], mount, fuel - 1);
      assert fuel - 1 - |ds[1..]| == fuel - |ds|;
    }
  }

  lemma ChainHead(h: Heap, ds: seq<nat>)
    requires Chain(h, ds)
    ensures ds != [] && ds[0] != 0
    ensures if |ds| == 1 then h.parent(ds[0]) == Some(ds[0])
      else h.parent(ds[0]) == Some(ds[1]) && ds[1] != ds[0] && Chain(h, ds[1..])
  {
    assert ds[0] in ds;
    if |ds| > 1 {
      assert h.parent(ds[0]) == Some(ds[0 + 1]);
      ShorterChain(h, ds);
    }
  }

  lemma ShorterChain(h: Heap, ds: seq<nat>)
    requires Chain(h, ds) && |ds| > 1
    ensures Chain(h, ds[1..])
  {
    var t := ds[1..];
    assert forall d :: d in t ==> d in ds;
    forall i | 0 <= i < |t| - 1 ensures h.parent(t[i]) == Some(t[i + 1]) && t[i + 1] != t[i] {
      assert h.parent(ds[i + 1]) == Some(ds[i + 1 + 1]);
    }
  }

  lemma {:induction false} SlashedConcat(a: seq<string>, b: seq<string>)
    ensures Slashed(a + b) == Slashed(b) + Slashed(a)
  {
    if a == [] {
      assert a + b == b;
    } else {
      assert (a + b)[1..] == a[1..] + b;
      SlashedConcat(a[1..], b);
    }
  }

  /** The names of a mount's global path: none for the root mount, else those met going up from its mountpoint. */
  function MountParts(h: Heap, mount: nat): seq<string> {
    match Hop(h, Some(mount))
    case None => []
    case Some((d, p)) => Parts(h, d, Some(p), GUARD)
  }

  /** The walk that gives them ends by itself within n steps. */
  ghost predicate MountEnds(h: Heap, mount: nat, n: nat) {
    match Hop(h, Some(mount))
    case None => true
    case Some((d, p)) => Ends(h, d, Some(p), n)
  }

  /** `inner` below `outer`: a path that is just the root adds nothing. */
  function Under(outer: string, inner: string): string {
    if outer == "/" then (if inner == "" then "/" else inner) else outer + inner
  }

  /** A mount that hangs on the dentry at the start of a chain of its parent's filesystem. */
  ghost predicate HangsOn(h: Heap, child: nat, p: nat, ds: seq<nat>) {
    && h.mountOk && Chain(h, ds)
    && h.mntPoint(child) == Some(ds[0]) && h.mntParent(child) == Some(p) && p != child && p != 0
  }

  /**
   The global path of a mount is that of its parent with the mountpoint's path inside
   the parent's filesystem appended, as long as the whole walk stays under the guard.
   */
  lemma MountPathComposes(h: Heap, child: nat, p: nat, ds: seq<nat>, n: nat)
    requires HangsOn(h, child, p, ds) && MountEnds(h, p, n) && |ds| + n <= GUARD
    ensures Hop(h, Some(child)) == Some((ds[0], p)) && MountEnds(h, child, |ds| + n)
    ensures MountParts(h, child) == Names(h, ds) + MountParts(h, p)
    ensures Join(MountParts(h, child)) == Under(Join(MountParts(h, p)), Slashed(Names(h, ds)))
  {
    hide Parts, Chain, Ends;
    assert ds[0] != 0 by { ChainStart(h, ds); }
    UpTheChain(h, ds, Some(p), GUARD);
    ChainEnds(h, ds, p, n);
    if Hop(h, Some(p)).Some? {
      var (d, pp) := Hop(h, Some(p)).value;
      MoreFuel(h, d, Some(pp), n, GUARD);
      MoreFuel(h, d, Some(pp), n, GUARD - |ds|);
      PartsVisible(h, d, Some(pp), GUARD);
    }
    SlashedConcat(Names(h, ds), MountParts(h, p));
    NoParts(Names(h, ds));
    if MountParts(h, p) == [] {
      assert Names(h, ds) + [] == Names(h, ds);
    } else {
      SlashedLong(MountParts(h, p));
    }
  }

  lemma ChainStart(h: Heap, ds: seq<nat>)
    requires Chain(h, ds)
    ensures ds != [] && ds[0] != 0
  {
    assert ds[0] in ds;
  }

  lemma {:induction false} ChainEnds(h: Heap, ds: seq<nat>, mount: nat, n: nat)
    requires Chain(h, ds) && MountEnds(h, mount, n)
    ensures Ends(h, ds[0], Some(mount), |ds| + n)
    decreases |ds|
  {
    hide Hop;
    assert ds[0] in ds;
    if |ds| > 1 {
      assert h.parent(ds[0]) == Some(ds[0 + 1]);
      ShorterChain(h, ds);
      ChainEnds(h, ds[1..], mount, n);
    }
  }

  lemma {:induction false} PartsVisible(h: Heap, cur: nat, mount: Option<nat>, fuel: nat)
    ensures forall n | n in Parts(h, cur, mount, fuel) :: n != ""
    decreases fuel
  {
    hide Hop;
    if cur != 0 && fuel > 0 && h.parent(cur).Some? {
      var p := h.parent(cur).value;
      if p != cur {
        PartsVisible(h, p, mount, fuel - 1);
      } else if Hop(h, mount).Some? {
        PartsVisible(h, Hop(h, mount).value.0, Some(Hop(h, mount).value.1), fuel - 1);
      }
    }
  }

  lemma SlashedLong(parts: seq<string>)
    requires parts != [] && forall n | n in parts :: n != ""
    ensures |Slashed(parts)| > 1
  {
    assert parts[0] in parts;
  }

  lemma NoParts(parts: seq<string>)
    ensures Slashed(parts) == "" <==> parts == []
  {
  }
}
