/**
 From the bytes of a BTF section to looked-up offsets, in terms of the types as they
 are written (BtfFormat): the conversion of src/symbols/btf_to_isf.cpp followed by
 load and field_offset of src/symbols/isf_symbols.cpp.
 */
module BtfLookup {
  import opened Words
  import opened BtfFormat
  import opened Btf
  import opened FieldNames
  import opened BtfLayout
  import opened BtfSymbols

  type Names = nat -> string

  function Resolved(ds: seq<Decoded>, names: Names): (types: seq<Type>)
    ensures |types| == |ds| && forall i | 0 <= i < |ds| :: types[i] == Named(ds[i], names)
  {
    seq(|ds|, (i: nat) requires i < |ds| => Named(ds[i], names))
  }

  /** The types the converter works on, for a section written from ws. */
  function TypesOf(ws: seq<Wire>, names: Names): (types: seq<Type>)
    requires AllOk(ws)
    ensures |types| == |ws| + 1
  {
    Resolved([VOID] + KeptTypes(ws), names)
  }

  // ---------- one type ----------

  predicate HasMembers(b: Body) { b.Struct? || b.Union? }

  function MembersOf(b: Body): seq<Member> {
    if HasMembers(b) then b.members else []
  }

  /** Type id is the type written in place id, counted from 1, field by field. */
  lemma ResolvedIs(ws: seq<Wire>, names: Names, id: nat)
    requires AllOk(ws) && 1 <= id <= |ws|
    ensures var types := TypesOf(ws, names);
      var t, w := types[id], ws[id - 1];
      && |types| == |ws| + 1
      && t.kind == Code(w.body) && t.name == names(w.nameOff) && t.sizeOrType == w.sizeOrType && t.kflag == w.kflag
      && t.element == (if w.body.Array? then w.body.element else 0)
      && t.count == (if w.body.Array? then w.body.count else 0)
      && |t.members| == |MembersOf(w.body)|
      && forall k | 0 <= k < |t.members| :: SameMember(t.members[k], MembersOf(w.body)[k], names)
  {
    hide InfoWord, WireOk, KindOf, KflagOf, Resolved;
    assert ws[id - 1] in ws;
    InfoFields(ws[id - 1]);
  }

  ghost predicate SameMember(m: Mem, w: Member, names: Names) {
    m.name == names(w.nameOff) && m.typ == w.typ && m.bitOffset == w.bitOffset && m.bitSize == w.bitSize
  }

  // ---------- qualifiers and anonymous members ----------

  predicate IsQual(b: Body) { b.Volatile? || b.Const? || b.Restrict? || b.TypeTag? }

  /** From type id, n qualifiers deep, lies type target, which is none itself. */
  ghost predicate Leads(ws: seq<Wire>, id: nat, n: nat, target: nat)
    decreases n
  {
    && 1 <= id <= |ws|
    && if n == 0 then id == target && !IsQual(ws[id - 1].body)
       else IsQual(ws[id - 1].body) && Leads(ws, ws[id - 1].sizeOrType, n - 1, target)
  }

  /** Under at most 32 qualifiers. */
  ghost predicate Under(ws: seq<Wire>, id: nat, target: nat) {
    exists n: nat | n <= 32 :: Leads(ws, id, n, target)
  }

  lemma {:induction false} LeadsIff(ws: seq<Wire>, names: Names, id: nat, n: nat, target: nat)
    requires AllOk(ws)
    ensures Leads(ws, id, n, target) <==> EndsAt(TypesOf(ws, names), id, n, target)
    decreases n
  {
    hide TypesOf;
    if 1 <= id <= |ws| {
      ResolvedIs(ws, names, id);
      QualCodes(ws[id - 1].body);
      if n > 0 {
        LeadsIff(ws, names, ws[id - 1].sizeOrType, n - 1, target);
      }
    } else {
      NoSuchType(ws, names, id, n, target);
    }
  }

  lemma QualCodes(b: Body)
    ensures IsQual(b) <==> Code(b) == K_CONST || Code(b) == K_VOLATILE || Code(b) == K_RESTRICT || Code(b) == K_TYPE_TAG
  {
  }

  lemma NoSuchType(ws: seq<Wire>, names: Names, id: nat, n: nat, target: nat)
    requires AllOk(ws) && !(1 <= id <= |ws|)
    ensures !EndsAt(TypesOf(ws, names), id, n, target)
  {
  }

  lemma UnderIff(ws: seq<Wire>, names: Names, id: nat, target: nat)
    requires AllOk(ws) && target != 0
    ensures StripQuals(TypesOf(ws, names), id, 0) == target <==> Under(ws, id, target)
  {
    hide TypesOf, EndsAt, StripQuals, Leads;
    StripQualsIff(TypesOf(ws, names), id, target);
    forall n: nat | n <= 32 ensures Leads(ws, id, n, target) <==> EndsAt(TypesOf(ws, names), id, n, target) {
      LeadsIff(ws, names, id, n, target);
    }
  }

  /** A member without a name stands for the members of a struct or union without a name. */
  ghost predicate StandsFor(ws: seq<Wire>, names: Names, m: Member, target: nat) {
    && names(m.nameOff) == "" && Under(ws, m.typ, target)
    && 1 <= target <= |ws| && HasMembers(ws[target - 1].body) && names(ws[target - 1].nameOff) == ""
  }

  ghost predicate StandsForItself(ws: seq<Wire>, names: Names, m: Member) {
    forall target :: !StandsFor(ws, names, m, target)
  }

  lemma NestedIff(ws: seq<Wire>, names: Names, m: Mem, w: Member, target: nat)
    requires AllOk(ws) && SameMember(m, w, names)
    ensures Nested(TypesOf(ws, names), m) == Some(target) <==> StandsFor(ws, names, w, target)
  {
    hide TypesOf, StripQuals, Under;
    var types := TypesOf(ws, names);
    if target != 0 {
      UnderIff(ws, names, w.typ, target);
    }
    if 1 <= target <= |ws| {
      ResolvedIs(ws, names, target);
    }
    UnderInside(ws, names, w.typ, target);
  }

  lemma UnderInside(ws: seq<Wire>, names: Names, id: nat, target: nat)
    requires AllOk(ws)
    ensures |TypesOf(ws, names)| == |ws| + 1
    ensures Under(ws, id, target) ==> 1 <= id <= |ws|
  {
    hide Resolved;
  }

  // ---------- paths ----------

  /** Member number member of type number typ. */
  datatype Hop = Hop(typ: nat, member: nat)

  predicate IsHop(ws: seq<Wire>, h: Hop) {
    1 <= h.typ <= |ws| && h.member < |MembersOf(ws[h.typ - 1].body)|
  }

  function MemberAt(ws: seq<Wire>, h: Hop): Member
    requires IsHop(ws, h)
  {
    MembersOf(ws[h.typ - 1].body)[h.member]
  }

  /** Each member but the last stands for the type the next one is a member of; the last stands for itself. */
  ghost predicate Path(ws: seq<Wire>, names: Names, hops: seq<Hop>): (p: bool)
    ensures p ==> hops != [] && 1 <= hops[0].typ <= |ws| && forall h | h in hops :: IsHop(ws, h)
  {
    && hops != [] && (forall k | 0 <= k < |hops| :: IsHop(ws, hops[k]))
    && (forall k | 0 <= k < |hops| - 1 :: StandsFor(ws, names, MemberAt(ws, hops[k]), hops[k + 1].typ))
    && StandsForItself(ws, names, MemberAt(ws, hops[|hops| - 1]))
  }

  function BitSum(ws: seq<Wire>, hops: seq<Hop>): nat
    requires forall h | h in hops :: IsHop(ws, h)
  {
    if hops == [] then 0 else MemberAt(ws, hops[0]).bitOffset + BitSum(ws, hops[1..])
  }

  /** The member at the end of a path, as far from the start of the first type as its members are. */
  function LeafAt(ws: seq<Wire>, names: Names, hops: seq<Hop>): Leaf
    requires Path(ws, names, hops)
  {
    var m := MemberAt(ws, hops[|hops| - 1]);
    Leaf(names(m.nameOff), BitSum(ws, hops), m.bitSize, m.typ)
  }

  function Positions(hops: seq<Hop>): (p: seq<nat>)
    ensures |p| == |hops|
  {
    if hops == [] then [] else [hops[0].member] + Positions(hops[1..])
  }

  lemma HopMember(ws: seq<Wire>, names: Names, h: Hop)
    requires AllOk(ws) && IsHop(ws, h)
    ensures var types := TypesOf(ws, names);
      && h.typ < |types| && h.member < |types[h.typ].members|
      && SameMember(types[h.typ].members[h.member], MemberAt(ws, h), names)
  {
    hide TypesOf, SameMember;
    ResolvedIs(ws, names, h.typ);
  }

  lemma RestIsPath(ws: seq<Wire>, names: Names, hops: seq<Hop>)
    requires Path(ws, names, hops) && |hops| > 1
    ensures Path(ws, names, hops[1..])
    ensures var l := LeafAt(ws, names, hops[1..]);
      LeafAt(ws, names, hops) == l.(bitOffset := l.bitOffset + MemberAt(ws, hops[0]).bitOffset)
  {
    hide StandsFor, IsHop;
    var rest := hops[1..];
    forall k | 0 <= k < |rest| - 1 ensures StandsFor(ws, names, MemberAt(ws, rest[k]), rest[k + 1].typ) {
      assert rest[k] == hops[k + 1] && rest[k + 1] == hops[k + 2];
    }
  }

  /** Following a path of the written types in the resolved ones gives its last member. */
  lemma {:induction false} PathReaches(ws: seq<Wire>, names: Names, hops: seq<Hop>)
    requires AllOk(ws) && Path(ws, names, hops)
    ensures var types := TypesOf(ws, names);
      && hops[0].typ < |types|
      && Reach(types, types[hops[0].typ].members, Positions(hops)) == Some(LeafAt(ws, names, hops))
    decreases |hops|
  {
    hide TypesOf, StandsFor, Nested, SameMember, Path, LeafAt, Reach, MemberAt;
    FirstHop(ws, names, hops);
    var h := hops[0];
    var types := TypesOf(ws, names);
    HopMember(ws, names, h);
    var m := types[h.typ].members[h.member];
    if |hops| == 1 {
      if Nested(types, m).Some? {
        NestedIff(ws, names, m, MemberAt(ws, h), Nested(types, m).value);
      }
      LastHop(ws, names, hops, m);
      ReachHere(types, types[h.typ].members, Positions(hops));
    } else {
      NestedIff(ws, names, m, MemberAt(ws, h), hops[1].typ);
      RestIsPath(ws, names, hops);
      PathReaches(ws, names, hops[1..]);
      ReachOn(types, types[h.typ].members, Positions(hops), hops[1].typ);
      OffsetOf(ws, names, h, m);
    }
  }

  lemma ReachHere(types: seq<Type>, ms: seq<Mem>, path: seq<nat>)
    requires |path| == 1 && path[0] < |ms| && Nested(types, ms[path[0]]).None?
    ensures var m := ms[path[0]]; Reach(types, ms, path) == Some(Leaf(m.name, m.bitOffset, m.bitSize, m.typ))
  {
    hide Nested;
  }

  lemma ReachOn(types: seq<Type>, ms: seq<Mem>, path: seq<nat>, target: nat)
    requires path != [] && path[0] < |ms| && Nested(types, ms[path[0]]) == Some(target)
    ensures target < |types|
    ensures Reach(types, ms, path) == Shift(Reach(types, types[target].members, path[1..]), ms[path[0]].bitOffset)
  {
    hide Nested;
  }

  lemma OffsetOf(ws: seq<Wire>, names: Names, h: Hop, m: Mem)
    requires IsHop(ws, h) && SameMember(m, MemberAt(ws, h), names)
    ensures m.bitOffset == MemberAt(ws, h).bitOffset
  {
  }

  lemma FirstHop(ws: seq<Wire>, names: Names, hops: seq<Hop>)
    requires Path(ws, names, hops)
    ensures hops != [] && IsHop(ws, hops[0])
    ensures Positions(hops)[0] == hops[0].member && Positions(hops)[1..] == Positions(hops[1..])
    ensures |hops| == 1 ==> StandsForItself(ws, names, MemberAt(ws, hops[0]))
    ensures |hops| > 1 ==> StandsFor(ws, names, MemberAt(ws, hops[0]), hops[1].typ)
  {
    hide StandsFor, IsHop;
  }

  lemma LastHop(ws: seq<Wire>, names: Names, hops: seq<Hop>, m: Mem)
    requires Path(ws, names, hops) && |hops| == 1 && SameMember(m, MemberAt(ws, hops[0]), names)
    ensures LeafAt(ws, names, hops) == Leaf(m.name, m.bitOffset, m.bitSize, m.typ)
  {
    hide StandsFor, IsHop;
    assert BitSum(ws, hops[1..]) == 0;
  }

  /** And every path of the resolved types is one of the written types. */
  lemma {:induction false} ReachIsPath(ws: seq<Wire>, names: Names, id: nat, path: seq<nat>)
    returns (hops: seq<Hop>)
    requires AllOk(ws) && 1 <= id <= |ws|
    requires Reach(TypesOf(ws, names), TypesOf(ws, names)[id].members, path).Some?
    ensures Path(ws, names, hops) && hops[0].typ == id && Positions(hops) == path
    decreases |path|
  {
    hide TypesOf, StandsFor, Nested, SameMember, Path;
    var types := TypesOf(ws, names);
    var h := Hop(id, path[0]);
    ResolvedIs(ws, names, id);
    var m := types[id].members[path[0]];
    match Nested(types, m)
    case None =>
      hops := [h];
      assert Positions([]) == [] && hops[1..] == [];
      forall target ensures !StandsFor(ws, names, MemberAt(ws, h), target) {
        NestedIff(ws, names, m, MemberAt(ws, h), target);
      }
      OneHop(ws, names, h);
    case Some(target) =>
      NestedIff(ws, names, m, MemberAt(ws, h), target);
      StandsInside(ws, names, MemberAt(ws, h), target);
      var rest := ReachIsPath(ws, names, target, path[1..]);
      hops := [h] + rest;
      assert hops[1..] == rest;
      LongerPath(ws, names, h, rest);
  }

  lemma StandsInside(ws: seq<Wire>, names: Names, m: Member, target: nat)
    requires StandsFor(ws, names, m, target)
    ensures 1 <= target <= |ws|
  {
  }

  lemma OneHop(ws: seq<Wire>, names: Names, h: Hop)
    requires IsHop(ws, h) && StandsForItself(ws, names, MemberAt(ws, h))
    ensures Path(ws, names, [h])
  {
    hide StandsFor, IsHop;
  }

  lemma LongerPath(ws: seq<Wire>, names: Names, h: Hop, rest: seq<Hop>)
    requires IsHop(ws, h) && Path(ws, names, rest) && StandsFor(ws, names, MemberAt(ws, h), rest[0].typ)
    ensures Path(ws, names, [h] + rest)
  {
    hide StandsFor, IsHop;
    var hops := [h] + rest;
    forall k | 0 <= k < |hops| - 1 ensures StandsFor(ws, names, MemberAt(ws, hops[k]), hops[k + 1].typ) {
      assert k > 0 ==> hops[k] == rest[k - 1];
    }
  }

  // ---------- names and places ----------

  function TypeName(ws: seq<Wire>, names: Names, id: nat): string
    requires 1 <= id <= |ws|
  {
    names(ws[id - 1].nameOff)
  }

  function FieldName(ws: seq<Wire>, names: Names, hops: seq<Hop>): string
    requires Path(ws, names, hops)
  {
    names(MemberAt(ws, hops[|hops| - 1]).nameOff)
  }

  /** No struct or union before this one has its name, and the name has none of the converter's suffixes. */
  ghost predicate PlainType(ws: seq<Wire>, names: Names, id: nat)
    requires 1 <= id <= |ws|
  {
    var name := TypeName(ws, names, id);
    && HasMembers(ws[id - 1].body) && name != "" && !EndsInNumber(name)
    && forall j | 1 <= j < id && HasMembers(ws[j - 1].body) :: TypeName(ws, names, j) != name
  }

  /** Eight anonymous levels at most, and no other member within them has this one's name. */
  ghost predicate PlainField(ws: seq<Wire>, names: Names, hops: seq<Hop>)
    requires Path(ws, names, hops)
  {
    var name := FieldName(ws, names, hops);
    && |hops| <= 9 && name != "" && !EndsInNumber(name)
    && forall other | SameStart(ws, names, hops, other) :: FieldName(ws, names, other) == name ==> other == hops
  }

  ghost predicate SameStart(ws: seq<Wire>, names: Names, hops: seq<Hop>, other: seq<Hop>)
    requires Path(ws, names, hops)
  {
    Path(ws, names, other) && |other| <= 9 && other[0].typ == hops[0].typ
  }

  ghost predicate PlainPath(ws: seq<Wire>, names: Names, hops: seq<Hop>): (p: bool)
    ensures p ==> Path(ws, names, hops)
  {
    Path(ws, names, hops) && PlainType(ws, names, hops[0].typ) && PlainField(ws, names, hops)
  }

  /** The symbol file has the type, and in it the member in its place: so many bits from the start. */
  ghost predicate Placed(out: TypeMap, ws: seq<Wire>, names: Names, hops: seq<Hop>)
    requires AllOk(ws) && Path(ws, names, hops)
  {
    var w, m := ws[hops[0].typ - 1], MemberAt(ws, hops[|hops| - 1]);
    var typ, field := TypeName(ws, names, hops[0].typ), FieldName(ws, names, hops);
    && typ in out && out[typ].kind == Code(w.body) && out[typ].size == w.sizeOrType && field in out[typ].fields
    && var info := out[typ].fields[field];
    && info.offset == BitSum(ws, hops) / 8 && info.ref == TypeRef(TypesOf(ws, names), m.typ, 0)
    && if m.bitSize == 0 then info.Plain?
       else info.Bits? && info.position == BitSum(ws, hops) % 8 && info.length == m.bitSize
  }

  function LeavesBelow(ws: seq<Wire>, names: Names, id: nat): seq<Leaf>
    requires AllOk(ws) && id <= |ws|
  {
    LeavesOf(TypesOf(ws, names), TypesOf(ws, names)[id].members, 0, 0)
  }

  /** A leaf of the converted struct is a member at the end of a written path, and the other way round. */
  lemma LeafIff(ws: seq<Wire>, names: Names, id: nat, l: Leaf)
    requires AllOk(ws) && 1 <= id <= |ws|
    ensures l in LeavesBelow(ws, names, id)
      <==> exists hops: seq<Hop> | Path(ws, names, hops) && |hops| <= 9 && hops[0].typ == id ::
             LeafAt(ws, names, hops) == l
  {
    hide TypesOf, LeavesOf, Path, Reach, LeafAt;
    var types := TypesOf(ws, names);
    LeavesIff(types, types[id].members, l);
    if path :| |path| <= 9 && Reached(types, types[id].members, 0, path, l) {
      var hops := ReachIsPath(ws, names, id, path);
      PathReaches(ws, names, hops);
    }
    if hops: seq<Hop> :| Path(ws, names, hops) && |hops| <= 9 && hops[0].typ == id && LeafAt(ws, names, hops) == l {
      PathReaches(ws, names, hops);
      assert Reached(types, types[id].members, 0, Positions(hops), l);
    }
  }

  lemma WrittenTypes(ws: seq<Wire>, names: Names, id: nat)
    requires AllOk(ws) && 1 <= id <= |ws|
    ensures var types := TypesOf(ws, names);
      && |types| == |ws| + 1 && types[id].name == TypeName(ws, names, id)
      && (Emitted(types[id]) <==> HasMembers(ws[id - 1].body) && TypeName(ws, names, id) != "")
  {
    hide TypesOf;
    ResolvedIs(ws, names, id);
  }

  lemma PlainTypeIsKept(ws: seq<Wire>, names: Names, id: nat)
    requires AllOk(ws) && 1 <= id <= |ws| && PlainType(ws, names, id)
    ensures TypeKept(TypesOf(ws, names), id)
  {
    hide TypesOf, EndsInNumber, TypeKept, Emitted;
    var types := TypesOf(ws, names);
    WrittenTypes(ws, names, id);
    forall j | 0 <= j < id && Emitted(types[j]) ensures types[j].name != types[id].name {
      if j > 0 {
        WrittenTypes(ws, names, j);
      } else {
        VoidNotEmitted(ws, names);
      }
    }
    PlainTypeKept(types, id);
  }

  lemma VoidNotEmitted(ws: seq<Wire>, names: Names)
    requires AllOk(ws)
    ensures |TypesOf(ws, names)| > 0 && !Emitted(TypesOf(ws, names)[0])
  {
    hide KeptTypes;
  }

  /** Its leaf comes first under its name. */
  lemma PlainFieldIsKept(ws: seq<Wire>, names: Names, hops: seq<Hop>) returns (k: nat)
    requires AllOk(ws) && Path(ws, names, hops) && PlainField(ws, names, hops)
    ensures var ls := LeavesBelow(ws, names, hops[0].typ);
      k < |ls| && ls[k] == LeafAt(ws, names, hops) && KeepsName(ls, k)
  {
    hide LeavesBelow, Path, EndsInNumber, KeepsName, LeafAt, PlainField;
    PlainFacts(ws, names, hops);
    LeafNames(ws, names, hops);
    var id := hops[0].typ;
    var ls := LeavesBelow(ws, names, id);
    LeafIff(ws, names, id, LeafAt(ws, names, hops));
    var name := FieldName(ws, names, hops);
    k := FirstNamed(ls, LeafAt(ws, names, hops));
    LeafIff(ws, names, id, ls[k]);
    var other: seq<Hop> :|
      Path(ws, names, other) && |other| <= 9 && other[0].typ == id && LeafAt(ws, names, other) == ls[k];
    LeafNames(ws, names, other);
    PlainIsOnly(ws, names, hops, other);
    PlainNameKept(ls, k);
  }

  lemma PlainIsOnly(ws: seq<Wire>, names: Names, hops: seq<Hop>, other: seq<Hop>)
    requires Path(ws, names, hops) && PlainField(ws, names, hops) && SameStart(ws, names, hops, other)
    ensures FieldName(ws, names, other) == FieldName(ws, names, hops) ==> other == hops
  {
    hide Path, EndsInNumber;
  }

  lemma PlainFacts(ws: seq<Wire>, names: Names, hops: seq<Hop>)
    requires Path(ws, names, hops) && PlainField(ws, names, hops)
    ensures |hops| <= 9 && FieldName(ws, names, hops) != "" && !EndsInNumber(FieldName(ws, names, hops))
  {
    hide Path, EndsInNumber;
  }

  lemma LeafNames(ws: seq<Wire>, names: Names, hops: seq<Hop>)
    requires Path(ws, names, hops)
    ensures LeafAt(ws, names, hops).name == FieldName(ws, names, hops)
  {
  }

  lemma {:induction false} FirstNamed(ls: seq<Leaf>, l: Leaf) returns (k: nat)
    requires l in ls
    ensures k < |ls| && ls[k].name == l.name && forall j | 0 <= j < k :: ls[j].name != l.name
  {
    k := 0;
    while ls[k].name != l.name
      invariant k < |ls| && forall j | 0 <= j < k :: ls[j].name != l.name
      decreases |ls| - k
    {
      k := k + 1;
    }
  }

  lemma PlacedOf(ws: seq<Wire>, names: Names, hops: seq<Hop>)
    requires AllOk(ws) && PlainPath(ws, names, hops)
    ensures Placed(BuiltFrom(TypesOf(ws, names), |TypesOf(ws, names)|).out, ws, names, hops)
  {
    hide TypesOf, LeavesBelow, Path, PlainType, PlainField, KeepsName, TypeKept, BuiltFrom, LeafAt, TypeRef, Placed;
    hide UserTypeOf, InsertAll, InfoOf;
    var types, id := TypesOf(ws, names), hops[0].typ;
    WrittenTypes(ws, names, id);
    PlainTypeIsKept(ws, names, id);
    KeptTypeFound(types, |types|, id);
    var k := PlainFieldIsKept(ws, names, hops);
    KeptName(types, LeavesBelow(ws, names, id), k);
    LeafNames(ws, names, hops);
    UserParts(ws, names, id);
    PlacedFrom(BuiltFrom(types, |types|).out, ws, names, hops);
  }

  lemma UserParts(ws: seq<Wire>, names: Names, id: nat)
    requires AllOk(ws) && 1 <= id <= |ws|
    ensures var types := TypesOf(ws, names);
      var u := UserTypeOf(types, types[id]);
      && u.kind == Code(ws[id - 1].body) && u.size == ws[id - 1].sizeOrType
      && u.fields == InsertAll(types, map[], LeavesBelow(ws, names, id))
  {
    hide TypesOf, InsertAll, LeavesOf;
    ResolvedIs(ws, names, id);
  }

  lemma PlacedFrom(out: TypeMap, ws: seq<Wire>, names: Names, hops: seq<Hop>)
    requires AllOk(ws) && Path(ws, names, hops)
    requires var w := ws[hops[0].typ - 1];
      var typ, field := TypeName(ws, names, hops[0].typ), FieldName(ws, names, hops);
      && typ in out && out[typ].kind == Code(w.body) && out[typ].size == w.sizeOrType && field in out[typ].fields
      && out[typ].fields[field] == InfoOf(TypesOf(ws, names), LeafAt(ws, names, hops))
    ensures Placed(out, ws, names, hops)
  {
    hide Path, TypesOf, TypeRef, Code, BitSum, LeafAt;
    LeafFields(ws, names, hops);
  }

  lemma LeafFields(ws: seq<Wire>, names: Names, hops: seq<Hop>)
    requires Path(ws, names, hops)
    ensures var l, m := LeafAt(ws, names, hops), MemberAt(ws, hops[|hops| - 1]);
      && l.name == FieldName(ws, names, hops) && l.typ == m.typ
      && l.bitOffset == BitSum(ws, hops) && l.bitSize == m.bitSize
  {
  }

  // ---------- the conversion ----------

  /** Parse the section, resolve the names, flatten: the structs and unions of the symbol file. */
  method ConvertSection(buf: seq<u8>, names: Names) returns (out: TypeMap)
    requires |buf| < TWO_32 && Advances(buf, 0)
    ensures var types := Resolved([VOID] + ParseFrom(buf, 0), names); out == BuiltFrom(types, |types|).out
    ensures forall ws, hops: seq<Hop> | AllOk(ws) && SectionBytes(ws) == buf && PlainPath(ws, names, hops) ::
      Placed(out, ws, names, hops)
  {
    hide ParseFrom, Advances, BuiltFrom, AllOk, SectionBytes, PlainPath, Placed, KeptTypes;
    var ds := ParseTypes(buf);
    out := BuildUserTypes(Resolved(ds, names));
    forall ws, hops: seq<Hop> | AllOk(ws) && SectionBytes(ws) == buf && PlainPath(ws, names, hops)
      ensures Placed(out, ws, names, hops)
    {
      PlacedOf(ws, names, hops);
    }
  }

  lemma LoadedField(out: TypeMap, typ: string, field: string, extra: string -> seq<(string, u64)>)
    requires typ in out && field in out[typ].fields
    ensures FieldOffset(Load(out, extra), typ, field) == Some(LoadedOffset(out[typ].fields[field].offset))
  {
    hide LoadedOffset, AddMissing;
    AddMissingKeeps(LoadFields(out[typ].fields), extra(typ), field);
  }

  /** Loading and looking up a member in its place: the sum of the bit offsets on its path, in bytes. */
  lemma PlacedIsFound(out: TypeMap, ws: seq<Wire>, names: Names, hops: seq<Hop>,
                      extra: string -> seq<(string, u64)>)
    requires AllOk(ws) && Path(ws, names, hops) && Placed(out, ws, names, hops)
    ensures var r := FieldOffset(Load(out, extra), TypeName(ws, names, hops[0].typ), FieldName(ws, names, hops));
      && r == Some(LoadedOffset(BitSum(ws, hops) / 8))
      && (BitSum(ws, hops) / 8 < 0x8000_0000 ==> r == Some(BitSum(ws, hops) / 8))
  {
    hide Path, TypesOf, LoadedOffset, Load, FieldOffset, BitSum, TypeRef, Code, EndsInNumber, IsHop, MemberAt;
    LoadedField(out, TypeName(ws, names, hops[0].typ), FieldName(ws, names, hops), extra);
    SmallOffset(BitSum(ws, hops) / 8);
  }

  lemma SmallOffset(offset: nat)
    ensures offset < 0x8000_0000 ==> LoadedOffset(offset) == offset
  {
  }

  /**
   The whole way, for any section written as the format says: type id of the list, any
   member of it that keeps its name, and a path to it. The look-up gives the sum of
   the bit offsets of the members written along that path, in bytes.
   */
  lemma WrittenLayoutFound(ws: seq<Wire>, names: Names, k: nat, hops: seq<Hop>, extra: string -> seq<(string, u64)>)
    requires AllOk(ws) && |SectionBytes(ws)| < TWO_32 && Path(ws, names, hops)
    requires var types, id := TypesOf(ws, names), hops[0].typ;
      && TypeKept(types, id)
      && var ls := LeavesBelow(ws, names, id);
      && k < |ls| && KeepsName(ls, k) && Reached(types, types[id].members, 0, Positions(hops), ls[k])
    ensures Advances(SectionBytes(ws), 0)
    ensures TypesOf(ws, names) == Resolved([VOID] + ParseFrom(SectionBytes(ws), 0), names)
    ensures
      var types := Resolved([VOID] + ParseFrom(SectionBytes(ws), 0), names);
      var r := FieldOffset(Load(BuiltFrom(types, |types|).out, extra),
                           TypeName(ws, names, hops[0].typ), FieldName(ws, names, hops));
      && r == Some(LoadedOffset(BitSum(ws, hops) / 8))
      && (BitSum(ws, hops) / 8 < 0x8000_0000 ==> r == Some(BitSum(ws, hops) / 8))
  {
    hide AllOk, SectionBytes, ParseFrom, Advances, TypeKept, LeavesOf, KeepsName, BuiltFrom, Path, Reach;
    hide Load, LoadedOffset, LeafAt, KeptTypes, PathOffset;
    FirstHop(ws, names, hops);
    TypeIds(ws, hops[0].typ);
    LayoutPreserved(TypesOf(ws, names), hops[0].typ, k, Positions(hops), extra);
    PathReaches(ws, names, hops);
    LeafFields(ws, names, hops);
    WrittenTypes(ws, names, hops[0].typ);
    SmallOffset(BitSum(ws, hops) / 8);
  }

  // ---------- what a member's type is called ----------

  /** What a reference to a written type says, one level of it. */
  function RefTo(ws: seq<Wire>, names: Names, w: Wire, depth: nat): Ref
    requires AllOk(ws)
  {
    var types := TypesOf(ws, names);
    var name := if names(w.nameOff) == "" then "?" else names(w.nameOff);
    match w.body
    case Int(_, _, _, _) => Base(name)
    case Float => Base(name)
    case Ptr => Pointer(TypeRef(types, w.sizeOrType, depth + 1))
    case Array(element, _, count) => Ref.Array(count, TypeRef(types, element, depth + 1))
    case Struct(_) => Ref.Struct(name)
    case Union(_) => Ref.Union(name)
    case Enum(_) => Ref.Enum(name)
    case Enum64(_) => Ref.Enum(name)
    case Fwd => if w.kflag then Ref.Union(name) else Ref.Struct(name)
    case Typedef => TypeRef(types, w.sizeOrType, depth + 1)
    case Func => Function
    case FuncProto(_) => Function
    case _ => Unknown
  }

  /** A reference names the type written under at most 32 qualifiers; none there, or type 0, is void. */
  lemma WrittenRef(ws: seq<Wire>, names: Names, id: nat, depth: nat)
    requires AllOk(ws) && depth <= 32
    ensures id == 0 ==> TypeRef(TypesOf(ws, names), id, depth) == Base("void")
    ensures id > |ws| ==> TypeRef(TypesOf(ws, names), id, depth) == Unknown
    ensures 1 <= id <= |ws| && (forall target: nat :: !Under(ws, id, target)) ==>
      TypeRef(TypesOf(ws, names), id, depth) == Base("void")
    ensures forall target: nat | 1 <= target <= |ws| && Under(ws, id, target) ::
      TypeRef(TypesOf(ws, names), id, depth) == RefTo(ws, names, ws[target - 1], depth)
  {
    hide TypesOf, StripQuals, Under, RefTo;
    var s := StripQuals(TypesOf(ws, names), id, 0);
    if s != 0 {
      UnderIff(ws, names, id, s);
    }
    forall target: nat | 1 <= target <= |ws| && Under(ws, id, target)
      ensures TypeRef(TypesOf(ws, names), id, depth) == RefTo(ws, names, ws[target - 1], depth)
    {
      UnderIff(ws, names, id, target);
      UnderInside(ws, names, id, target);
      RefByKind(ws, names, id, target, depth);
    }
  }

  lemma RefByKind(ws: seq<Wire>, names: Names, id: nat, target: nat, depth: nat)
    requires AllOk(ws) && depth <= 32 && 1 <= id <= |ws| && 1 <= target <= |ws|
    requires StripQuals(TypesOf(ws, names), id, 0) == target
    ensures TypeRef(TypesOf(ws, names), id, depth) == RefTo(ws, names, ws[target - 1], depth)
  {
    hide TypesOf, StripQuals;
    ResolvedIs(ws, names, target);
    NotQual(ws, names, id, target);
  }

  lemma NotQual(ws: seq<Wire>, names: Names, id: nat, target: nat)
    requires AllOk(ws) && target != 0 && StripQuals(TypesOf(ws, names), id, 0) == target
    ensures !IsQualifier(TypesOf(ws, names)[target])
  {
    hide TypesOf;
  }
}
