/**
 What the paths of MountTree spell: splitting one at its slashes gives the names of the
 dentries from the root down, as long as the names are ordinary ones.
 */
module MountNames {
  import opened Words
  import opened MountTree
  import FsPath

  function Outermost(parts: seq<string>): (cs: seq<string>)
    ensures |cs| == |parts| && forall i | 0 <= i < |parts| :: cs[i] == parts[|parts| - 1 - i]
  {
    if parts == [] then [] else Outermost(parts[1..]) + [parts[0]]
  }

  lemma {:induction false} JoinAppend(cs: seq<string>, c: string)
    ensures FsPath.Join(cs + [c]) == FsPath.Join(cs) + "/" + c
  {
    if cs == [] {
      assert FsPath.Join([c][1..]) == "" && [] + [c] == [c];
      assert "/" + c + "" == "/" + c;
    } else {
      assert (cs + [c])[1..] == cs[1..] + [c];
      JoinAppend(cs[1..], c);
    }
  }

  lemma {:induction false} SlashedIsJoin(parts: seq<string>)
    ensures Slashed(parts) == FsPath.Join(Outermost(parts))
  {
    if parts != [] {
      SlashedIsJoin(parts[1..]);
      JoinAppend(Outermost(parts[1..]), parts[0]);
    }
  }

  /** A name a file can have. */
  ghost predicate Ordinary(name: string) { name != "" && '/' !in name }

  /** The dentries below the root of a chain have such names. */
  ghost predicate OrdinaryNames(h: Heap, ds: seq<nat>) {
    forall i | 0 <= i < |ds| - 1 :: Ordinary(h.name(ds[i]))
  }

  lemma {:induction false} NamesAre(h: Heap, ds: seq<nat>)
    requires ds != [] && OrdinaryNames(h, ds)
    ensures |Names(h, ds)| == |ds| - 1
    ensures forall i | 0 <= i < |ds| - 1 :: Names(h, ds)[i] == h.name(ds[i])
  {
    if |ds| > 1 {
      forall i | 0 <= i < |ds| - 2 ensures Ordinary(h.name(ds[1..][i])) {
        assert ds[1..][i] == ds[i + 1];
      }
      assert Ordinary(h.name(ds[0]));
      NamesAre(h, ds[1..]);
    }
  }

  /** These are the names along the dentries, outermost first. */
  ghost predicate SpellsChain(h: Heap, cs: seq<string>, ds: seq<nat>) {
    |cs| == |ds| - 1 && forall i | 0 <= i < |cs| :: cs[i] == h.name(ds[|ds| - 2 - i])
  }

  lemma PartsSplit(parts: seq<string>)
    requires forall p | p in parts :: Ordinary(p)
    ensures FsPath.Components(Join(parts)) == Outermost(parts)
  {
    if parts == [] {
      assert FsPath.ComponentsFrom("/", 0) == FsPath.ComponentsFrom("/", 1) == [];
    } else {
      SlashedIsJoin(parts);
      var cs := Outermost(parts);
      forall c | c in cs ensures Ordinary(c) {
        var i :| 0 <= i < |cs| && cs[i] == c;
        assert parts[|parts| - 1 - i] in parts;
      }
      FsPath.ComponentsOfJoin(Outermost(parts));
    }
  }

  /** In the filesystem of the root mount a path spells its dentries, from the root's children down. */
  lemma RootPathSpells(h: Heap, ds: seq<nat>, mount: nat)
    requires h.dentryOk && Chain(h, ds) && OrdinaryNames(h, ds) && |ds| <= 256
    requires h.mntParent(mount) == Some(mount)
    ensures SpellsChain(h, FsPath.Components(PathOf(h, ds[0], Some(mount))), ds)
  {
    hide Parts, Names, Chain, FsPath.Components, Join, SpellsChain;
    ChainHead(h, ds);
    UpTheChain(h, ds, Some(mount), 256);
    assert FromRoot(h, Some(mount), 256 - |ds|) == [];
    assert Parts(h, ds[0], Some(mount), 256) == Names(h, ds);
    NamesSpell(h, ds);
  }

  lemma NamesSpell(h: Heap, ds: seq<nat>)
    requires ds != [] && OrdinaryNames(h, ds)
    ensures SpellsChain(h, FsPath.Components(Join(Names(h, ds))), ds)
  {
    hide FsPath.Components, Join, Names;
    NamesAre(h, ds);
    PartsSplit(Names(h, ds));
  }

  /** A path in a mounted filesystem is the mountpoint's names, its parent mount's before them. */
  lemma MountPathSpells(h: Heap, child: nat, p: nat, ds: seq<nat>, n: nat)
    requires HangsOn(h, child, p, ds) && MountEnds(h, p, n) && |ds| + n <= 256
    requires OrdinaryNames(h, ds) && forall c | c in MountParts(h, p) :: Ordinary(c)
    ensures var above := FsPath.Components(Join(MountParts(h, p)));
      var cs := FsPath.Components(Join(MountParts(h, child)));
      above <= cs && SpellsChain(h, cs[|above|..], ds)
  {
    hide FsPath.Components, Join, Names, MountParts, Slashed, Under, Hop, Chain;
    MountPathComposes(h, child, p, ds, n);
    HangChain(h, child, p, ds);
    NamesAre(h, ds);
    var inner, outer := Names(h, ds), MountParts(h, p);
    PartsSplit(inner + outer);
    PartsSplit(outer);
    AppendOutermost(inner, outer);
  }

  lemma HangChain(h: Heap, child: nat, p: nat, ds: seq<nat>)
    requires HangsOn(h, child, p, ds)
    ensures ds != []
  {
  }

  lemma AppendOutermost(a: seq<string>, b: seq<string>)
    ensures Outermost(a + b) == Outermost(b) + Outermost(a)
  {
  }
}
