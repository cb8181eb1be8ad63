/**
 Struct layouts from BTF types: qualifiers stripped, anonymous members inlined
 (src/symbols/btf_to_isf.cpp), and the field offsets looked up in the loaded
 symbol file (src/symbols/isf_symbols.cpp).
 */
module BtfLayout {
  import opened Words
  import BtfFormat
  import opened Btf
  import opened FieldNames

  /** A decoded type with its names resolved. */
  datatype Mem = Mem(name: string, typ: nat, bitOffset: nat, bitSize: nat)
  datatype Type = Type(
    kind: nat, name: string, sizeOrType: nat, members: seq<Mem>, count: nat, element: nat, kflag: bool)

  function Named(d: Decoded, names: nat -> string): Type {
    Type(KindOf(d.info), names(d.nameOff), d.sizeOrType,
      if d.extra.Members? then MemsOf(d.extra.members, names) else [],
      if d.extra.ArrayExtra? then d.extra.count else 0,
      if d.extra.ArrayExtra? then d.extra.element else 0,
      KflagOf(d.info))
  }

  function MemsOf(ms: seq<BtfFormat.Member>, names: nat -> string): seq<Mem> {
    seq(|ms|, (i: nat) requires i < |ms| => Mem(names(ms[i].nameOff), ms[i].typ, ms[i].bitOffset, ms[i].bitSize))
  }

  // ---------- qualifiers ----------

  predicate IsQualifier(t: Type) {
    t.kind == K_CONST || t.kind == K_VOLATILE || t.kind == K_RESTRICT || t.kind == K_TYPE_TAG
  }

  function StripQuals(types: seq<Type>, id: nat, depth: nat): (r: nat)
    ensures r == 0 || (r < |types| && !IsQualifier(types[r]))
    decreases 33 - depth
  {
    if depth > 32 || id == 0 || id >= |types| then 0
    else if IsQualifier(types[id]) then
      if types[id].sizeOrType >= |types| then 0 else StripQuals(types, types[id].sizeOrType, depth + 1)
    else id
  }

  /** The id reached by going through exactly n qualifiers. */
  function Chase(types: seq<Type>, id: nat, n: nat): Option<nat>
    decreases n
  {
    if n == 0 then Some(id)
    else if 0 < id < |types| && IsQualifier(types[id]) then Chase(types, types[id].sizeOrType, n - 1)
    else None
  }

  ghost predicate EndsAt(types: seq<Type>, id: nat, n: nat, r: nat) {
    Chase(types, id, n) == Some(r) && 0 < r < |types| && !IsQualifier(types[r])
  }

  /** The result is the type under at most 32 qualifiers; anything else, cycles included, gives void. */
  lemma StripQualsIff(types: seq<Type>, id: nat, r: nat)
    requires r != 0
    ensures StripQuals(types, id, 0) == r <==> exists n: nat | n <= 32 :: EndsAt(types, id, n, r)
  {
    if StripQuals(types, id, 0) == r {
      var n := StripReaches(types, id, 0);
      assert EndsAt(types, id, n, r);
    }
    if exists n: nat | n <= 32 :: EndsAt(types, id, n, r) {
      var n: nat :| n <= 32 && EndsAt(types, id, n, r);
      ReachedIsStripped(types, id, 0, n, r);
    }
  }

  lemma {:induction false} StripReaches(types: seq<Type>, id: nat, depth: nat) returns (n: nat)
    requires StripQuals(types, id, depth) != 0
    ensures n + depth <= 32 && EndsAt(types, id, n, StripQuals(types, id, depth))
    decreases 33 - depth
  {
    if IsQualifier(types[id]) {
      var k := StripReaches(types, types[id].sizeOrType, depth + 1);
      n := k + 1;
    } else {
      n := 0;
    }
  }

  lemma {:induction false} ReachedIsStripped(types: seq<Type>, id: nat, depth: nat, n: nat, r: nat)
    requires n + depth <= 32 && EndsAt(types, id, n, r)
    ensures StripQuals(types, id, depth) == r
    decreases n
  {
    if n > 0 {
      assert EndsAt(types, types[id].sizeOrType, n - 1, r);
      if n == 1 {
        assert Chase(types, types[id].sizeOrType, 0) == Some(r);
      } else {
        assert 0 < types[id].sizeOrType < |types|;
      }
      ReachedIsStripped(types, types[id].sizeOrType, depth + 1, n - 1, r);
    }
  }

  // ---------- type references ----------

  datatype Ref =
    | Base(name: string)
    | Pointer(to: Ref)
    | Array(n: nat, of: Ref)
    | Struct(name: string)
    | Union(name: string)
    | Enum(name: string)
    | Function
    | Unknown

  const VOID_REF := Base("void")

  function OrQuestion(name: string): string { if name == "" then "?" else name }

  function TypeRef(types: seq<Type>, id: nat, depth: nat): (r: Ref)
    ensures Height(r) <= Max(34 - depth, 1)
    decreases 34 - depth
  {
    if depth > 32 || id == 0 then VOID_REF
    else if id >= |types| then Unknown
    else
      var s := StripQuals(types, id, 0);
      if s == 0 then VOID_REF
      else
        var t := types[s];
        var k := t.kind;
        if k == K_VOID then VOID_REF
        else if k == K_INT || k == K_FLOAT then Base(OrQuestion(t.name))
        else if k == K_PTR then Pointer(TypeRef(types, t.sizeOrType, depth + 1))
        else if k == K_ARRAY then Array(t.count, TypeRef(types, t.element, depth + 1))
        else if k == K_STRUCT then Struct(OrQuestion(t.name))
        else if k == K_UNION then Union(OrQuestion(t.name))
        else if k == K_ENUM || k == K_ENUM64 then Enum(OrQuestion(t.name))
        else if k == K_TYPEDEF then TypeRef(types, t.sizeOrType, depth + 1)
        else if k == K_FUNC || k == K_FUNC_PROTO then Function
        else if k == K_FWD then (if t.kflag then Union(OrQuestion(t.name)) else Struct(OrQuestion(t.name)))
        else Unknown
  }

  function Height(r: Ref): nat {
    match r
    case Pointer(to) => 1 + Height(to)
    case Array(_, of) => 1 + Height(of)
    case _ => 1
  }

  /** Qualifiers never change what a reference says. */
  lemma TypeRefThroughQuals(types: seq<Type>, id: nat, depth: nat)
    requires StripQuals(types, id, 0) != 0
    ensures TypeRef(types, id, depth) == TypeRef(types, StripQuals(types, id, 0), depth)
  {
    var s := StripQuals(types, id, 0);
    assert StripQuals(types, s, 0) == s;
  }

  /** A pointer, array or typedef chain from here ends within n levels. */
  predicate Resolves(types: seq<Type>, id: nat, n: nat)
    decreases n
  {
    0 < id < |types| && StripQuals(types, id, 0) != 0 ==>
      var t := types[StripQuals(types, id, 0)];
      && (t.kind == K_PTR || t.kind == K_TYPEDEF ==> n > 0 && Resolves(types, t.sizeOrType, n - 1))
      && (t.kind == K_ARRAY ==> n > 0 && Resolves(types, t.element, n - 1))
  }

  /** The depth a chain is met at does not matter as long as it ends before the limit. */
  lemma {:induction false} DepthImmaterial(types: seq<Type>, id: nat, n: nat, d: nat, e: nat)
    requires Resolves(types, id, n) && d + n <= 32 && e + n <= 32
    ensures TypeRef(types, id, d) == TypeRef(types, id, e)
    decreases n
  {
    hide StripQuals;
    if 0 < id < |types| && StripQuals(types, id, 0) != 0 {
      var t := types[StripQuals(types, id, 0)];
      if t.kind == K_PTR || t.kind == K_TYPEDEF { DepthImmaterial(types, t.sizeOrType, n - 1, d + 1, e + 1); }
      if t.kind == K_ARRAY { DepthImmaterial(types, t.element, n - 1, d + 1, e + 1); }
    }
  }

  /**
   References compose: one to a pointer is a pointer to what its target refers to, one
   to an array has that as its element, and a typedef refers to what its target does.
   */
  lemma TypeRefComposes(types: seq<Type>, id: nat)
    requires 0 < id < |types| && StripQuals(types, id, 0) != 0 && Resolves(types, id, 32)
    ensures var t := types[StripQuals(types, id, 0)];
      && (t.kind == K_PTR ==> TypeRef(types, id, 0) == Pointer(TypeRef(types, t.sizeOrType, 0)))
      && (t.kind == K_ARRAY ==> TypeRef(types, id, 0) == Array(t.count, TypeRef(types, t.element, 0)))
      && (t.kind == K_TYPEDEF ==> TypeRef(types, id, 0) == TypeRef(types, t.sizeOrType, 0))
  {
    hide StripQuals;
    var t := types[StripQuals(types, id, 0)];
    if t.kind == K_PTR || t.kind == K_TYPEDEF { DepthImmaterial(types, t.sizeOrType, 31, 1, 0); }
    if t.kind == K_ARRAY { DepthImmaterial(types, t.element, 31, 1, 0); }
  }

  // ---------- flattening, as a list ----------

  /** A member that is not inlined, with its bit offset from the start of the outermost struct. */
  datatype Leaf = Leaf(name: string, bitOffset: nat, bitSize: nat, typ: nat)

  /** The anonymous struct or union a member stands for. */
  function Nested(types: seq<Type>, m: Mem): (r: Option<nat>)
    ensures r.Some? ==> r.value < |types|
  {
    if m.name == "" && m.typ != 0 && m.typ < |types| then
      var tid := StripQuals(types, m.typ, 0);
      if tid != 0 && (types[tid].kind == K_STRUCT || types[tid].kind == K_UNION) && types[tid].name == ""
      then Some(tid) else None
    else None
  }

  function LeavesOf(types: seq<Type>, ms: seq<Mem>, base: nat, depth: nat): seq<Leaf>
    requires depth <= 9
    decreases 9 - depth, |ms|, 1
  {
    if depth > 8 || ms == [] then []
    else LeavesOf(types, ms[..|ms| - 1], base, depth) + MemberLeaves(types, ms[|ms| - 1], base, depth)
  }

  function MemberLeaves(types: seq<Type>, m: Mem, base: nat, depth: nat): seq<Leaf>
    requires depth <= 8
    decreases 9 - depth, 0, 0
  {
    match Nested(types, m)
    case Some(tid) => LeavesOf(types, types[tid].members, base + m.bitOffset, depth + 1)
    case None => [Leaf(m.name, base + m.bitOffset, m.bitSize, m.typ)]
  }

  /** The member at the end of a path of member positions, each but the last naming an anonymous struct. */
  function Reach(types: seq<Type>, ms: seq<Mem>, path: seq<nat>): Option<Leaf>
    decreases |path|
  {
    if path == [] || path[0] >= |ms| then None
    else
      var m := ms[path[0]];
      match Nested(types, m)
      case None => if |path| == 1 then Some(Leaf(m.name, m.bitOffset, m.bitSize, m.typ)) else None
      case Some(tid) => Shift(Reach(types, types[tid].members, path[1..]), m.bitOffset)
  }

  function Shift(l: Option<Leaf>, d: nat): Option<Leaf> {
    if l.None? then None else Some(l.value.(bitOffset := l.value.bitOffset + d))
  }

  ghost predicate Reached(types: seq<Type>, ms: seq<Mem>, base: nat, path: seq<nat>, l: Leaf) {
    Shift(Reach(types, ms, path), base) == Some(l)
  }

  lemma {:induction false} LeafHasPath(types: seq<Type>, ms: seq<Mem>, base: nat, depth: nat, l: Leaf)
    returns (path: seq<nat>)
    requires depth <= 9 && l in LeavesOf(types, ms, base, depth)
    ensures |path| + depth <= 9 && Reached(types, ms, base, path, l)
    decreases 9 - depth, |ms|
  {
    hide Nested;
    var g, m := ms[..|ms| - 1], ms[|ms| - 1];
    if l in LeavesOf(types, g, base, depth) {
      path := LeafHasPath(types, g, base, depth, l);
      assert path[0] < |g| && g[path[0]] == ms[path[0]];
    } else {
      match Nested(types, m)
      case None => path := [|ms| - 1];
      case Some(tid) =>
        var rest := LeafHasPath(types, types[tid].members, base + m.bitOffset, depth + 1, l);
        path := [|ms| - 1] + rest;
        assert path[1..] == rest;
    }
  }

  lemma {:induction false} PathIsLeaf(types: seq<Type>, ms: seq<Mem>, base: nat, depth: nat, path: seq<nat>, l: Leaf)
    requires |path| + depth <= 9 && Reached(types, ms, base, path, l)
    ensures l in LeavesOf(types, ms, base, depth)
    decreases 9 - depth, |ms|
  {
    hide Nested;
    var g, m := ms[..|ms| - 1], ms[|ms| - 1];
    if path[0] < |g| {
      assert g[path[0]] == ms[path[0]];
      PathIsLeaf(types, g, base, depth, path, l);
    } else if Nested(types, m).Some? {
      var tid := Nested(types, m).value;
      PathIsLeaf(types, types[tid].members, base + m.bitOffset, depth + 1, path[1..], l);
    }
  }

  /** The leaves are exactly the members reached through at most eight anonymous levels, at the sum of the offsets. */
  lemma LeavesIff(types: seq<Type>, ms: seq<Mem>, l: Leaf)
    ensures l in LeavesOf(types, ms, 0, 0)
      <==> exists path | |path| <= 9 :: Reached(types, ms, 0, path, l)
  {
    hide Reached;
    if l in LeavesOf(types, ms, 0, 0) {
      var path := LeafHasPath(types, ms, 0, 0, l);
    }
    if path :| |path| <= 9 && Reached(types, ms, 0, path, l) {
      PathIsLeaf(types, ms, 0, 0, path, l);
    }
  }

  // ---------- naming ----------

  datatype Info = Plain(offset: nat, ref: Ref) | Bits(offset: nat, position: nat, length: nat, ref: Ref)

  function InfoOf(types: seq<Type>, l: Leaf): Info {
    var r := TypeRef(types, l.typ, 0);
    if l.bitSize != 0 then Bits(l.bitOffset / 8, l.bitOffset % 8, l.bitSize, r) else Plain(l.bitOffset / 8, r)
  }

  function BitOffset(i: Info): nat {
    match i
    case Plain(offset, _) => offset * 8
    case Bits(offset, position, _, _) => offset * 8 + position
  }

  /** What is stored determines the bit offset, unless a plain member starts inside a byte. */
  lemma BitOffsetKeptIff(types: seq<Type>, l: Leaf)
    ensures BitOffset(InfoOf(types, l)) == l.bitOffset <==> l.bitSize != 0 || l.bitOffset % 8 == 0
  {
  }

  type FieldMap = map<string, Info>

  /** The name a member asks for: its own, or one made up from the number of fields so far. */
  function BaseName(n: nat, name: string): string {
    if name == "" then Suffixed("__unnamed", n) else name
  }

  /** The name it gets: that one, or, if it is taken, that one with the number of fields as a suffix. */
  function KeyIn(used: set<string>, name: string): string {
    var base := BaseName(|used|, name);
    if base in used then Suffixed(base, |used|) else base
  }

  function KeyFor(f: FieldMap, name: string): string {
    var base := BaseName(|f|, name);
    if base in f then Suffixed(base, |f|) else base
  }

  function Insert(types: seq<Type>, f: FieldMap, l: Leaf): FieldMap {
    f[KeyFor(f, l.name) := InfoOf(types, l)]
  }

  function InsertAll(types: seq<Type>, f: FieldMap, ls: seq<Leaf>): FieldMap {
    if ls == [] then f else Insert(types, InsertAll(types, f, ls[..|ls| - 1]), ls[|ls| - 1])
  }

  lemma {:induction false} InsertAllConcat(types: seq<Type>, f: FieldMap, a: seq<Leaf>, b: seq<Leaf>)
    ensures InsertAll(types, f, a + b) == InsertAll(types, InsertAll(types, f, a), b)
  {
    hide Insert;
    if b == [] {
      assert a + b == a;
    } else {
      InsertAllConcat(types, f, a, b[..|b| - 1]);
      assert (a + b)[..|a + b| - 1] == a + b[..|b| - 1];
    }
  }

  /** The names in use after these leaves; only their names matter. */
  function Used(ls: seq<Leaf>): set<string> {
    if ls == [] then {} else Used(ls[..|ls| - 1]) + {KeyIn(Used(ls[..|ls| - 1]), ls[|ls| - 1].name)}
  }

  /** The name leaf k is stored under. */
  function KeyAt(ls: seq<Leaf>, k: nat): string
    requires k < |ls|
  {
    KeyIn(Used(ls[..k]), ls[k].name)
  }

  lemma {:induction false} UsedIsKeys(types: seq<Type>, ls: seq<Leaf>)
    ensures InsertAll(types, map[], ls).Keys == Used(ls)
    ensures |InsertAll(types, map[], ls)| == |Used(ls)|
  {
    hide InfoOf, Suffixed;
    if ls != [] {
      UsedIsKeys(types, ls[..|ls| - 1]);
    }
  }

  lemma UsedSnoc(ls: seq<Leaf>, n: nat)
    requires n < |ls|
    ensures Used(ls[..n + 1]) == Used(ls[..n]) + {KeyAt(ls, n)}
  {
    assert ls[..n + 1][..n] == ls[..n];
  }

  lemma {:induction false} UsedCount(ls: seq<Leaf>, n: nat)
    requires n <= |ls|
    ensures |Used(ls[..n])| <= n
    ensures |Used(ls)| <= |Used(ls[..n])| + |ls| - n
    decreases |ls|
  {
    hide KeyIn;
    if n < |ls| {
      var front := ls[..|ls| - 1];
      UsedCount(front, n);
      assert front[..n] == ls[..n];
    } else {
      assert ls[..n] == ls;
      if n > 0 {
        UsedCount(ls[..n - 1], n - 1);
        assert ls[..n - 1][..n - 1] == ls[..n - 1];
      }
    }
  }

  // ---------- when a field is lost ----------

  /** Where a name in use comes from: it is some leaf's own, or made up with a number below the count. */
  ghost predicate ComesFrom(ls: seq<Leaf>, key: string) {
    || (exists i :: 0 <= i < |ls| && ls[i].name == key)
    || exists a: string, j: nat :: j < |ls| && key == Suffixed(a, j)
  }

  lemma {:induction false} UsedComesFrom(ls: seq<Leaf>, key: string)
    requires key in Used(ls)
    ensures ComesFrom(ls, key)
  {
    hide Suffixed;
    var n := |ls| - 1;
    var front, l := ls[..n], ls[n];
    UsedCount(front, n);
    assert front[..n] == front;
    if key in Used(front) {
      UsedComesFrom(front, key);
      if i :| 0 <= i < |front| && front[i].name == key {
        assert ls[i].name == key;
      }
    } else if key == l.name {
      assert ls[n].name == key;
    } else {
      MadeUp(Used(front), l.name, key);
    }
  }

  lemma PrefixComesFrom(ls: seq<Leaf>, k: nat, key: string)
    requires k <= |ls| && key in Used(ls[..k])
    ensures || (exists i :: 0 <= i < k && ls[i].name == key)
            || exists a: string, j: nat :: j < k && key == Suffixed(a, j)
  {
    hide Used, Suffixed;
    UsedComesFrom(ls[..k], key);
    if i :| 0 <= i < k && ls[..k][i].name == key {
      assert ls[i].name == key;
    }
  }

  lemma MadeUp(used: set<string>, name: string, key: string)
    requires key == KeyIn(used, name) && key != name
    ensures exists a: string :: key == Suffixed(a, |used|)
  {
    hide Suffixed;
    var base := BaseName(|used|, name);
    assert key == Suffixed(base, |used|) || key == Suffixed("__unnamed", |used|);
  }

  /** A leaf's own name is in use from then on. */
  lemma {:induction false} NamesAreUsed(ls: seq<Leaf>, i: nat)
    requires i < |ls| && ls[i].name != ""
    ensures ls[i].name in Used(ls)
  {
    hide Suffixed;
    if i < |ls| - 1 {
      NamesAreUsed(ls[..|ls| - 1], i);
    }
  }

  /** The name leaf k asks for is taken, and so is the suffixed one it then falls back to, by an earlier member. */
  ghost predicate Clobbers(ls: seq<Leaf>, k: nat)
    requires k < |ls|
  {
    && BaseName(k, ls[k].name) in Used(ls[..k])
    && exists i :: 0 <= i < k && ls[i].name == Suffixed(BaseName(k, ls[k].name), k)
  }

  /** Before any loss, a leaf replaces an earlier field exactly when it clobbers. */
  lemma ReplacesIff(ls: seq<Leaf>, k: nat)
    requires k < |ls| && |Used(ls[..k])| == k
    ensures KeyAt(ls, k) in Used(ls[..k]) <==> Clobbers(ls, k)
  {
    hide Used, Suffixed;
    var base := BaseName(k, ls[k].name);
    if base in Used(ls[..k]) {
      var key := Suffixed(base, k);
      if key in Used(ls[..k]) {
        PrefixComesFrom(ls, k, key);
        if a: string, j: nat :| j < k && key == Suffixed(a, j) {
          SuffixUnique(a, j, base, k);
        }
      }
      if i :| 0 <= i < k && ls[i].name == key {
        SuffixedEnds(base, k);
        assert ls[..k][i].name == key;
        NamesAreUsed(ls[..k], i);
      }
    }
  }

  lemma {:induction false} CountWhileKept(ls: seq<Leaf>, n: nat)
    requires n <= |ls|
    ensures |Used(ls[..n])| == n <==> forall k | 0 <= k < n :: !Clobbers(ls, k)
  {
    hide KeyIn, Clobbers, Used;
    if n == 0 {
      assert ls[..0] == [] && Used([]) == {} by { NothingUsed(); }
    } else {
      CountWhileKept(ls, n - 1);
      UsedSnoc(ls, n - 1);
      UsedCount(ls[..n - 1], n - 1);
      assert ls[..n - 1][..n - 1] == ls[..n - 1];
      if |Used(ls[..n - 1])| == n - 1 {
        ReplacesIff(ls, n - 1);
      }
    }
  }

  lemma NothingUsed()
    ensures Used([]) == {}
  {
  }

  /**
   Flattening loses no field exactly when no member asks for a name in use while
   the suffixed name it then falls back to is an earlier member's own.
   */
  lemma NothingLostIff(types: seq<Type>, ls: seq<Leaf>)
    ensures |InsertAll(types, map[], ls)| == |ls| <==> forall k | 0 <= k < |ls| :: !Clobbers(ls, k)
  {
    hide Clobbers, Used, Insert;
    UsedIsKeys(types, ls);
    CountWhileKept(ls, |ls|);
    assert ls[..|ls|] == ls;
  }

  /** Whatever is lost elsewhere, a field holds the last leaf stored under its name. */
  lemma {:induction false} LastWriterWins(types: seq<Type>, ls: seq<Leaf>, k: nat)
    requires k < |ls| && forall j | k < j < |ls| :: KeyAt(ls, j) != KeyAt(ls, k)
    ensures var f := InsertAll(types, map[], ls); KeyAt(ls, k) in f && f[KeyAt(ls, k)] == InfoOf(types, ls[k])
  {
    hide InfoOf, KeyIn, InsertAll, Used;
    var n := |ls| - 1;
    var front := ls[..n];
    LastInsert(types, ls);
    if k < n {
      assert front[..k] == ls[..k];
      forall j | k < j < n ensures KeyAt(front, j) != KeyAt(front, k) {
        assert front[..j] == ls[..j] && KeyAt(ls, j) != KeyAt(ls, k);
      }
      LastWriterWins(types, front, k);
      assert KeyAt(ls, n) != KeyAt(ls, k);
    }
  }

  lemma LastInsert(types: seq<Type>, ls: seq<Leaf>)
    requires ls != []
    ensures var n := |ls| - 1;
      InsertAll(types, map[], ls) == InsertAll(types, map[], ls[..n])[KeyAt(ls, n) := InfoOf(types, ls[n])]
  {
    hide InfoOf, KeyIn, KeyFor;
    LastKey(types, ls[..|ls| - 1], ls[|ls| - 1]);
  }

  lemma LastKey(types: seq<Type>, front: seq<Leaf>, l: Leaf)
    ensures KeyFor(InsertAll(types, map[], front), l.name) == KeyIn(Used(front), l.name)
  {
    hide InfoOf, Suffixed;
    UsedIsKeys(types, front);
  }

  /** Leaf k keeps its own name: no earlier leaf has it or made it up, and no later one falls back to it. */
  ghost predicate KeepsName(ls: seq<Leaf>, k: nat)
    requires k < |ls|
  {
    && ls[k].name != "" && ls[k].name !in Used(ls[..k])
    && forall j | k < j < |ls| :: KeyAt(ls, j) != ls[k].name
  }

  /** Then it is found under it. */
  lemma KeptName(types: seq<Type>, ls: seq<Leaf>, k: nat)
    requires k < |ls| && KeepsName(ls, k)
    ensures var f := InsertAll(types, map[], ls); ls[k].name in f && f[ls[k].name] == InfoOf(types, ls[k])
  {
    hide Used, InsertAll;
    LastWriterWins(types, ls, k);
  }

  ghost predicate FirstOfName(ls: seq<Leaf>, i: nat)
    requires i < |ls|
  {
    ls[i].name != "" && forall j | 0 <= j < i :: ls[j].name != ls[i].name
  }

  /** The first member of a name keeps it for certain if the name does not end in an underscore and digits. */
  lemma PlainNameKept(ls: seq<Leaf>, k: nat)
    requires k < |ls| && FirstOfName(ls, k) && !EndsInNumber(ls[k].name)
    ensures KeepsName(ls, k)
  {
    hide Used, Suffixed, EndsInNumber;
    var name := ls[k].name;
    if name in Used(ls[..k]) {
      PrefixComesFrom(ls, k, name);
      if a: string, j: nat :| j < k && name == Suffixed(a, j) {
        SuffixedEnds(a, j);
      }
    }
    forall j | k < j < |ls| ensures KeyAt(ls, j) != name {
      assert ls[..j][k] == ls[k];
      NamesAreUsed(ls[..j], k);
      var base := BaseName(|Used(ls[..j])|, ls[j].name);
      SuffixedEnds(base, |Used(ls[..j])|);
    }
  }

  /** It also keeps it when nothing is lost and no earlier collision made the same name up. */
  lemma UnclobberedNameKept(types: seq<Type>, ls: seq<Leaf>, k: nat)
    requires k < |ls| && ls[k].name != "" && ls[k].name !in Used(ls[..k])
    requires |InsertAll(types, map[], ls)| == |ls|
    ensures KeepsName(ls, k)
  {
    hide Used, KeyIn, Clobbers, InsertAll;
    NothingLostIff(types, ls);
    forall j | k < j < |ls| ensures KeyAt(ls, j) != ls[k].name {
      CountWhileKept(ls, j);
      ReplacesIff(ls, j);
      assert ls[..j][k] == ls[k];
      NamesAreUsed(ls[..j], k);
    }
  }

  /** A suffixed field can replace a real member: x, x_2 and a second x leave only two fields. */
  lemma SuffixOverwrites(types: seq<Type>, a: Leaf, b: Leaf, c: Leaf)
    requires a.name == "x_2" && b.name == "x" && c.name == "x"
    ensures var f := InsertAll(types, map[], [a, b, c]);
      |f| == 2 && "x_2" in f && f["x_2"] == InfoOf(types, c) && "x" in f && f["x"] == InfoOf(types, b)
  {
    hide InfoOf;
    var f1: FieldMap := map["x_2" := InfoOf(types, a)];
    var f2: FieldMap := f1["x" := InfoOf(types, b)];
    assert InsertAll(types, map[], []) == map[];
    assert [a][..0] == [] && InsertAll(types, map[], [a]) == f1;
    assert [a, b][..1] == [a] && InsertAll(types, map[], [a, b]) == f2;
    assert [a, b, c][..2] == [a, b];
    assert |f2| == 2 && Decimal(2) == "2" && Suffixed("x", 2) == "x_2";
    assert KeyFor(f2, "x") == "x_2";
  }
}
