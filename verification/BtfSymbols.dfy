/**
 From BTF types to looked-up offsets: flatten_members_into and build_user_types
 (src/symbols/btf_to_isf.cpp), then load and field_offset (src/symbols/isf_symbols.cpp).
 */
module BtfSymbols {
  import opened Words
  import opened Btf
  import opened FieldNames
  import opened BtfLayout

  /** The JSON object a struct's fields are written into. */
  class Fields {
    var m: FieldMap

    constructor ()
      ensures m == map[]
    {
      m := map[];
    }

    /** Adds every leaf below the given members, in order, under its own or a suffixed name. */
    method Flatten(types: seq<Type>, ms: seq<Mem>, base: nat, depth: nat)
      requires depth <= 9
      modifies this
      ensures m == InsertAll(types, old(m), LeavesOf(types, ms, base, depth))
      decreases 9 - depth
    {
      hide Nested, KeyFor, InfoOf, LeavesOf;
      if depth > 8 {
        NoLeaves(types, ms, base, depth);
        return;
      }
      NoLeaves(types, [], base, depth);
      for i := 0 to |ms|
        invariant m == InsertAll(types, old(m), LeavesOf(types, ms[..i], base, depth))
      {
        OneMoreMember(types, old(m), ms, i, base, depth);
        var bitOffset := base + ms[i].bitOffset;
        match Nested(types, ms[i])
        case Some(tid) =>
          Flatten(types, types[tid].members, bitOffset, depth + 1);
        case None =>
          m := Insert(types, m, Leaf(ms[i].name, bitOffset, ms[i].bitSize, ms[i].typ));
      }
      assert ms[..|ms|] == ms;
    }
  }

  lemma NoLeaves(types: seq<Type>, ms: seq<Mem>, base: nat, depth: nat)
    requires depth <= 9 && (depth > 8 || ms == [])
    ensures LeavesOf(types, ms, base, depth) == []
  {
  }

  lemma OneMoreMember(types: seq<Type>, f: FieldMap, ms: seq<Mem>, i: nat, base: nat, depth: nat)
    requires i < |ms| && depth <= 8
    ensures var g := InsertAll(types, f, LeavesOf(types, ms[..i], base, depth));
      InsertAll(types, f, LeavesOf(types, ms[..i + 1], base, depth))
        == match Nested(types, ms[i])
           case Some(tid) =>
             InsertAll(types, g, LeavesOf(types, types[tid].members, base + ms[i].bitOffset, depth + 1))
           case None => Insert(types, g, Leaf(ms[i].name, base + ms[i].bitOffset, ms[i].bitSize, ms[i].typ))
  {
    hide Nested, KeyFor, InfoOf, Insert;
    assert ms[..i + 1][..i] == ms[..i];
    var one := MemberLeaves(types, ms[i], base, depth);
    InsertAllConcat(types, f, LeavesOf(types, ms[..i], base, depth), one);
    if Nested(types, ms[i]).None? {
      var g := InsertAll(types, f, LeavesOf(types, ms[..i], base, depth));
      assert one[..0] == [] && InsertAll(types, g, one) == Insert(types, InsertAll(types, g, []), one[0]);
    }
  }

  // ---------- user types ----------

  datatype UserType = UserType(kind: nat, size: nat, fields: FieldMap)
  type TypeMap = map<string, UserType>

  predicate Emitted(t: Type) {
    (t.kind == K_STRUCT || t.kind == K_UNION) && t.name != ""
  }

  function UserTypeOf(types: seq<Type>, t: Type): UserType {
    UserType(t.kind, t.sizeOrType, InsertAll(types, map[], LeavesOf(types, t.members, 0, 0)))
  }

  /** The types written so far, and how many needed a suffix. */
  datatype Built = Built(out: TypeMap, repeats: nat)

  /** The name the next type is written under. */
  function TypeKey(b: Built, t: Type): string {
    if t.name in b.out then Suffixed(t.name + "_", b.repeats + 1) else t.name
  }

  function Add(types: seq<Type>, b: Built, t: Type): Built {
    if !Emitted(t) then b
    else Built(b.out[TypeKey(b, t) := UserTypeOf(types, t)], if t.name in b.out then b.repeats + 1 else b.repeats)
  }

  function BuiltFrom(types: seq<Type>, n: nat): Built
    requires n <= |types|
  {
    if n == 0 then Built(map[], 0) else Add(types, BuiltFrom(types, n - 1), types[n - 1])
  }

  method BuildUserTypes(types: seq<Type>) returns (out: TypeMap)
    ensures out == BuiltFrom(types, |types|).out
  {
    hide InsertAll, LeavesOf, Suffixed;
    out := map[];
    var repeats := 0;
    for i := 0 to |types|
      invariant Built(out, repeats) == BuiltFrom(types, i)
    {
      var t := types[i];
      if (t.kind != K_STRUCT && t.kind != K_UNION) || t.name == "" {
        continue;
      }
      var nm := t.name;
      if nm in out {
        repeats := repeats + 1;
        nm := Suffixed(t.name + "_", repeats);
      }
      var fields := new Fields();
      fields.Flatten(types, t.members, 0, 0);
      out := out[nm := UserType(t.kind, t.sizeOrType, fields.m)];
    }
  }

  // ---------- which types keep their names ----------

  function EmittedCount(types: seq<Type>, n: nat): nat
    requires n <= |types|
  {
    if n == 0 then 0 else EmittedCount(types, n - 1) + if Emitted(types[n - 1]) then 1 else 0
  }

  ghost predicate NamedBefore(types: seq<Type>, n: nat, key: string)
    requires n <= |types|
  {
    exists i :: 0 <= i < n && Emitted(types[i]) && types[i].name == key
  }

  /** A name in use is some earlier type's own, or made up with a number among the repeats so far. */
  lemma {:induction false} TypeNameFrom(types: seq<Type>, n: nat, key: string)
    requires n <= |types| && key in BuiltFrom(types, n).out
    ensures NamedBefore(types, n, key)
      || exists a: string, j: nat :: j <= BuiltFrom(types, n).repeats && key == Suffixed(a, j)
  {
    hide Suffixed, UserTypeOf;
    var b, t := BuiltFrom(types, n - 1), types[n - 1];
    if key in b.out {
      TypeNameFrom(types, n - 1, key);
    } else if key == t.name {
      assert NamedBefore(types, n, key);
    } else {
      assert key == Suffixed(t.name + "_", b.repeats + 1);
    }
  }

  lemma {:induction false} TypeNamesAreUsed(types: seq<Type>, n: nat, i: nat)
    requires i < n <= |types| && Emitted(types[i])
    ensures types[i].name in BuiltFrom(types, n).out
  {
    hide Suffixed, UserTypeOf;
    if i < n - 1 {
      TypeNamesAreUsed(types, n - 1, i);
    }
  }

  /** Type k repeats a name, and the suffixed one it then gets is an earlier type's own. */
  ghost predicate TypeClobbers(types: seq<Type>, k: nat)
    requires k < |types|
  {
    var b := BuiltFrom(types, k);
    && Emitted(types[k]) && types[k].name in b.out
    && NamedBefore(types, k, Suffixed(types[k].name + "_", b.repeats + 1))
  }

  lemma TypeReplacesIff(types: seq<Type>, k: nat)
    requires k < |types| && Emitted(types[k])
    ensures TypeKey(BuiltFrom(types, k), types[k]) in BuiltFrom(types, k).out <==> TypeClobbers(types, k)
  {
    hide BuiltFrom, Suffixed;
    var b, t := BuiltFrom(types, k), types[k];
    if t.name in b.out {
      var key := Suffixed(t.name + "_", b.repeats + 1);
      if key in b.out {
        TypeNameFrom(types, k, key);
        if a: string, j: nat :| j <= b.repeats && key == Suffixed(a, j) {
          SuffixUnique(a, j, t.name + "_", b.repeats + 1);
        }
      }
      if i :| 0 <= i < k && Emitted(types[i]) && types[i].name == key {
        TypeNamesAreUsed(types, k, i);
      }
    }
  }

  lemma {:induction false} TypeCount(types: seq<Type>, n: nat)
    requires n <= |types|
    ensures |BuiltFrom(types, n).out| <= EmittedCount(types, n)
    ensures |BuiltFrom(types, n).out| == EmittedCount(types, n) <==> forall k | 0 <= k < n :: !TypeClobbers(types, k)
  {
    hide TypeKey, TypeClobbers, UserTypeOf;
    if n > 0 {
      TypeCount(types, n - 1);
      if Emitted(types[n - 1]) {
        TypeReplacesIff(types, n - 1);
      } else {
        NotEmitted(types, n - 1);
      }
    }
  }

  lemma NotEmitted(types: seq<Type>, k: nat)
    requires k < |types| && !Emitted(types[k])
    ensures !TypeClobbers(types, k)
  {
  }

  /** No struct or union is lost exactly when no repeated name is suffixed to an earlier type's own name. */
  lemma NoTypeLostIff(types: seq<Type>)
    ensures |BuiltFrom(types, |types|).out| == EmittedCount(types, |types|)
      <==> forall k | 0 <= k < |types| :: !TypeClobbers(types, k)
  {
    TypeCount(types, |types|);
  }

  /** Type i is written under its own name, and nothing is written there later. */
  ghost predicate TypeKept(types: seq<Type>, i: nat)
    requires i < |types|
  {
    && Emitted(types[i]) && types[i].name !in BuiltFrom(types, i).out
    && forall j | i < j < |types| && Emitted(types[j]) :: TypeKey(BuiltFrom(types, j), types[j]) != types[i].name
  }

  /** Then it is found there with all its fields, whatever becomes of other types. */
  lemma {:induction false} KeptTypeFound(types: seq<Type>, n: nat, i: nat)
    requires i < n <= |types| && TypeKept(types, i)
    ensures var b := BuiltFrom(types, n);
      types[i].name in b.out && b.out[types[i].name] == UserTypeOf(types, types[i])
  {
    hide Suffixed, UserTypeOf;
    if i < n - 1 {
      KeptTypeFound(types, n - 1, i);
    }
  }

  ghost predicate FirstTypeOfName(types: seq<Type>, i: nat)
    requires i < |types|
  {
    Emitted(types[i]) && forall j | 0 <= j < i && Emitted(types[j]) :: types[j].name != types[i].name
  }

  /** The first type of a name that does not end in an underscore and digits always keeps it. */
  lemma PlainTypeKept(types: seq<Type>, i: nat)
    requires i < |types| && FirstTypeOfName(types, i) && !EndsInNumber(types[i].name)
    ensures TypeKept(types, i)
  {
    hide BuiltFrom, Suffixed, EndsInNumber;
    var name := types[i].name;
    if name in BuiltFrom(types, i).out {
      TypeNameFrom(types, i, name);
      if a: string, j: nat :| j <= BuiltFrom(types, i).repeats && name == Suffixed(a, j) {
        SuffixedEnds(a, j);
      }
    }
    forall j | i < j < |types| && Emitted(types[j]) ensures TypeKey(BuiltFrom(types, j), types[j]) != name {
      TypeNamesAreUsed(types, j, i);
      SuffixedEnds(types[j].name + "_", BuiltFrom(types, j).repeats + 1);
    }
  }

  // ---------- loading and looking up ----------

  /** The offset is read back as a 32-bit int and widened to 64 bits. */
  function LoadedOffset(offset: nat): u64 {
    var low := offset % TWO_32;
    if low < TWO_31 then low else low + TWO_64 - TWO_32
  }

  lemma LoadedOffsetIff(offset: nat)
    requires offset < TWO_64 - TWO_31
    ensures LoadedOffset(offset) == offset <==> offset < 0x8000_0000
    ensures LoadedOffset(offset) % 0x1_0000_0000 == offset % 0x1_0000_0000
    ensures LoadedOffset(offset) < 0x8000_0000 || LoadedOffset(offset) >= 0xffff_ffff_8000_0000
  {
  }

  type OffsetMap = map<string, u64>

  function LoadFields(f: FieldMap): OffsetMap {
    map k | k in f :: LoadedOffset(f[k].offset)
  }

  /** The second pass over types of other producers only ever adds fields that are not there yet. */
  function AddMissing(f: OffsetMap, extra: seq<(string, u64)>): OffsetMap {
    if extra == [] then f
    else
      var g := AddMissing(f, extra[..|extra| - 1]);
      var (name, offset) := extra[|extra| - 1];
      if name in g then g else g[name := offset]
  }

  lemma {:induction false} AddMissingKeeps(f: OffsetMap, extra: seq<(string, u64)>, name: string)
    requires name in f
    ensures name in AddMissing(f, extra) && AddMissing(f, extra)[name] == f[name]
  {
    if extra != [] {
      AddMissingKeeps(f, extra[..|extra| - 1], name);
    }
  }

  /** The loaded table: every type's fields, plus whatever the second pass adds to it. */
  function Load(out: TypeMap, extra: string -> seq<(string, u64)>): map<string, OffsetMap> {
    map t | t in out :: AddMissing(LoadFields(out[t].fields), extra(t))
  }

  function FieldOffset(table: map<string, OffsetMap>, typ: string, field: string): Option<u64> {
    if typ in table && field in table[typ] then Some(table[typ][field]) else None
  }

  /**
   Layout is preserved end to end. Take a struct that keeps its name, and a member
   reached from it through anonymous levels that keeps its own: looking the two
   names up in the loaded table gives the sum of the bit offsets on the member's
   path, in bytes, as far as a loaded offset can hold it.
   */
  lemma LayoutPreserved(types: seq<Type>, i: nat, k: nat, path: seq<nat>, extra: string -> seq<(string, u64)>)
    requires i < |types| && TypeKept(types, i)
    requires var ls := LeavesOf(types, types[i].members, 0, 0);
      k < |ls| && KeepsName(ls, k) && Reached(types, types[i].members, 0, path, ls[k])
    ensures var ls := LeavesOf(types, types[i].members, 0, 0);
      var table := Load(BuiltFrom(types, |types|).out, extra);
      && ls[k].bitOffset == PathOffset(types, types[i].members, path)
      && FieldOffset(table, types[i].name, ls[k].name)
         == Some(LoadedOffset(PathOffset(types, types[i].members, path) / 8))
  {
    hide LeavesOf, KeepsName, TypeKept, Suffixed, BuiltFrom, InsertAll, Reach, TypeRef, LoadedOffset;
    var ls := LeavesOf(types, types[i].members, 0, 0);
    KeptTypeFound(types, |types|, i);
    KeptName(types, ls, k);
    AddMissingKeeps(LoadFields(InsertAll(types, map[], ls)), extra(types[i].name), ls[k].name);
    ReachOffset(types, types[i].members, path);
  }

  /** The sum of the bit offsets of the members along a path. */
  function PathOffset(types: seq<Type>, ms: seq<Mem>, path: seq<nat>): nat
    decreases |path|
  {
    if path == [] || path[0] >= |ms| then 0
    else
      ms[path[0]].bitOffset
      + match Nested(types, ms[path[0]])
        case None => 0
        case Some(tid) => PathOffset(types, types[tid].members, path[1..])
  }

  lemma {:induction false} ReachOffset(types: seq<Type>, ms: seq<Mem>, path: seq<nat>)
    requires Reach(types, ms, path).Some?
    ensures Reach(types, ms, path).value.bitOffset == PathOffset(types, ms, path)
    decreases |path|
  {
    hide Nested;
    match Nested(types, ms[path[0]])
    case None =>
    case Some(tid) => ReachOffset(types, types[tid].members, path[1..]);
  }
}
