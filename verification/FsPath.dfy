/** Path strings as the /fs builder handles them (src/app/engine.cpp, src/os/linux/pagecache.cpp). */
module FsPath {

  /** Index of the first slash at or after i, or the end. */
  function NextSlash(s: string, i: nat): (j: nat)
    requires i <= |s|
    ensures i <= j <= |s|
    ensures forall k | i <= k < j :: s[k] != '/'
    ensures j < |s| ==> s[j] == '/'
    decreases |s| - i
  {
    if i == |s| || s[i] == '/' then i else NextSlash(s, i + 1)
  }

  /** The non-empty runs between slashes, from index i on. */
  function ComponentsFrom(s: string, i: nat): (cs: seq<string>)
    requires i <= |s|
    ensures forall c | c in cs :: c != "" && '/' !in c
    decreases |s| - i
  {
    if i == |s| then []
    else if s[i] == '/' then ComponentsFrom(s, i + 1)
    else [s[i..NextSlash(s, i)]] + ComponentsFrom(s, NextSlash(s, i))
  }

  function Components(s: string): seq<string> {
    ComponentsFrom(s, 0)
  }

  function LastSlash(s: string): (k: nat)
    requires '/' in s
    ensures k < |s| && s[k] == '/' && forall i | k < i < |s| :: s[i] != '/'
  {
    if s[|s| - 1] == '/' then |s| - 1 else LastSlash(s[..|s| - 1])
  }

  lemma {:induction false} NextSlashPrefix(s: string, i: nat, k: nat)
    requires i <= k < |s| && s[k] == '/'
    ensures NextSlash(s, i) <= k && NextSlash(s[..k], i) == NextSlash(s, i)
    decreases k - i
  {
    if i < k && s[i] != '/' {
      NextSlashPrefix(s, i + 1, k);
    }
  }

  lemma {:induction false} NoSlashLeft(s: string, i: nat)
    requires i <= |s| && forall j | i <= j < |s| :: s[j] != '/'
    ensures NextSlash(s, i) == |s|
    ensures ComponentsFrom(s, i) == if i < |s| then [s[i..]] else []
    decreases |s| - i
  {
    if i < |s| {
      NoSlashLeft(s, i + 1);
      assert s[i..|s|] == s[i..];
    }
  }

  /** Splitting at the last slash: the directory's components, then the base name. */
  lemma {:induction false} SplitAtSlash(s: string, i: nat, k: nat)
    requires i <= k < |s| && s[k] == '/' && forall j | k < j < |s| :: s[j] != '/'
    ensures ComponentsFrom(s, i) == ComponentsFrom(s[..k], i) + if k + 1 < |s| then [s[k + 1..]] else []
    decreases k - i
  {
    if i == k {
      NoSlashLeft(s, k + 1);
    } else if s[i] == '/' {
      SplitAtSlash(s, i + 1, k);
    } else {
      NextSlashPrefix(s, i, k);
      var j := NextSlash(s, i);
      SplitAtSlash(s, j, k);
      assert s[..k][i..j] == s[i..j];
    }
  }

  /** The text of a path without empty components. */
  function Join(cs: seq<string>): string {
    if cs == [] then "" else "/" + cs[0] + Join(cs[1..])
  }

  predicate Canonical(s: string) {
    s == Join(Components(s))
  }

  predicate NoEmptyComponent(s: string, i: nat)
    requires i <= |s|
  {
    forall k | i <= k < |s| && s[k] == '/' :: k + 1 < |s| && s[k + 1] != '/'
  }

  /** An absolute path is canonical exactly when no slash is doubled and none ends it. */
  lemma {:induction false} CanonicalFrom(s: string, i: nat)
    requires i <= |s| && (i < |s| ==> s[i] == '/')
    ensures s[i..] == Join(ComponentsFrom(s, i)) <==> NoEmptyComponent(s, i)
    decreases |s| - i
  {
    if i < |s| {
      if i + 1 == |s| {
        assert ComponentsFrom(s, i) == [];
        assert s[i..] == "/";
      } else if s[i + 1] == '/' {
        ShorterJoin(s, i + 1);
        assert !(NoEmptyComponent(s, i));
      } else {
        var j := NextSlash(s, i + 1);
        CanonicalFrom(s, j);
        var c := s[i + 1..j];
        assert s[i..] == "/" + c + s[j..];
        assert ComponentsFrom(s, i) == [c] + ComponentsFrom(s, j);
        assert Join([c] + ComponentsFrom(s, j)) == "/" + c + Join(ComponentsFrom(s, j));
        assert s[i..][1 + |c|..] == s[j..];
        assert Join(ComponentsFrom(s, i))[1 + |c|..] == Join(ComponentsFrom(s, j));
        assert forall k | i < k < j :: s[k] != '/';
      }
    }
  }

  /** Joining never makes a path longer than it was. */
  lemma {:induction false} ShorterJoin(s: string, i: nat)
    requires i < |s| && s[i] == '/'
    ensures |Join(ComponentsFrom(s, i))| <= |s| - i
    decreases |s| - i
  {
    if i + 1 < |s| {
      if s[i + 1] == '/' {
        ShorterJoin(s, i + 1);
      } else {
        var j := NextSlash(s, i + 1);
        assert Join([s[i + 1..j]] + ComponentsFrom(s, j)) == "/" + s[i + 1..j] + Join(ComponentsFrom(s, j));
        if j < |s| {
          ShorterJoin(s, j);
        }
      }
    }
  }

  /** Canonical paths are determined by their components. */
  lemma CanonicalUnique(s: string, t: string)
    requires Canonical(s) && Canonical(t) && Components(s) == Components(t)
    ensures s == t
  {
  }

  /** A sequence of names a path could be split into. */
  predicate Proper(cs: seq<string>) {
    forall c | c in cs :: c != "" && '/' !in c
  }

  lemma {:induction false} ShiftSlash(a: string, s: string, i: nat)
    requires i <= |s|
    ensures NextSlash(a + s, |a| + i) == |a| + NextSlash(s, i)
    decreases |s| - i
  {
    if i < |s| && s[i] != '/' {
      ShiftSlash(a, s, i + 1);
    }
  }

  lemma FirstComponent(s: string, i: nat)
    requires i <= |s|
    ensures i == |s| ==> ComponentsFrom(s, i) == []
    ensures i < |s| && s[i] == '/' ==> ComponentsFrom(s, i) == ComponentsFrom(s, i + 1)
    ensures i < |s| && s[i] != '/' ==>
      var j := NextSlash(s, i); i < j && ComponentsFrom(s, i) == [s[i..j]] + ComponentsFrom(s, j)
  {
  }

  lemma {:induction false} ShiftComponents(a: string, s: string, i: nat)
    requires i <= |s|
    ensures ComponentsFrom(a + s, |a| + i) == ComponentsFrom(s, i)
    decreases |s| - i
  {
    hide NextSlash, ComponentsFrom;
    FirstComponent(s, i);
    FirstComponent(a + s, |a| + i);
    if i < |s| {
      if s[i] == '/' {
        ShiftComponents(a, s, i + 1);
      } else {
        var j := NextSlash(s, i);
        ShiftSlash(a, s, i);
        ShiftComponents(a, s, j);
        assert (a + s)[|a| + i..|a| + j] == s[i..j];
      }
    }
  }

  lemma {:induction false} ComponentsOfJoin(cs: seq<string>)
    requires Proper(cs)
    ensures Components(Join(cs)) == cs
  {
    if cs != [] {
      var c, rest := cs[0], Join(cs[1..]);
      assert c in cs && forall x | x in cs[1..] :: x in cs;
      ComponentsOfJoin(cs[1..]);
      ShiftComponents("/" + c, rest, 0);
      var s := "/" + c + rest;
      assert s[1..1 + |c|] == c && (rest != "" ==> s[1 + |c|] == '/');
      forall k | 1 <= k < 1 + |c| ensures s[k] != '/' {
        assert s[k] == c[k - 1] && c[k - 1] in c;
      }
      SlashAfter(s, 1, 1 + |c|);
      assert ComponentsFrom(s, 0) == ComponentsFrom(s, 1) == [c] + ComponentsFrom(s, 1 + |c|);
    }
  }

  lemma {:induction false} SlashAfter(s: string, i: nat, j: nat)
    requires i <= j <= |s| && (forall k | i <= k < j :: s[k] != '/') && (j < |s| ==> s[j] == '/')
    ensures NextSlash(s, i) == j
    decreases j - i
  {
    if i < j {
      SlashAfter(s, i + 1, j);
    }
  }
}
