/**
 The layout of a BTF type section, as section 2.2 of the kernel's BTF documentation
 (Documentation/bpf/btf.rst) gives it: what a type of each kind carries, its info
 word, and the bytes of its tail. Nothing here is taken from the parser.
 */
module BtfFormat {
  import opened Words

  datatype Member = Member(nameOff: u32, typ: u32, bitOffset: u32, bitSize: u32)
  datatype EnumVal = EnumVal(nameOff: u32, value: int)
  datatype Param = Param(nameOff: u32, typ: u32)
  datatype SecInfo = SecInfo(typ: u32, offset: u32, size: u32)

  /** What follows the header, by kind. */
  datatype Body =
    | Int(reserved: nat, flags: nat, offset: nat, bits: nat)
    | Ptr
    | Array(element: u32, index: u32, count: u32)
    | Struct(members: seq<Member>)
    | Union(members: seq<Member>)
    | Enum(values: seq<EnumVal>)
    | Fwd
    | Typedef
    | Volatile
    | Const
    | Restrict
    | Func
    | FuncProto(params: seq<Param>)
    | Var(linkage: u32)
    | Datasec(vars: seq<SecInfo>)
    | Float
    | DeclTag(component: u32)
    | TypeTag
    | Enum64(values: seq<EnumVal>)

  /**
   A type as it is written. The low 16 bits of the info word hold vlen, the number of
   entries of a list; other kinds may hold anything there, a function its linkage.
   */
  datatype Wire = Wire(
    nameOff: u32, sizeOrType: u32, kflag: bool, vlen: nat, unusedHigh: nat, unusedLow: nat, body: Body)

  // ---------- the info word ----------

  function Code(b: Body): nat {
    match b
    case Int(_, _, _, _) => 1
    case Ptr => 2
    case Array(_, _, _) => 3
    case Struct(_) => 4
    case Union(_) => 5
    case Enum(_) => 6
    case Fwd => 7
    case Typedef => 8
    case Volatile => 9
    case Const => 10
    case Restrict => 11
    case Func => 12
    case FuncProto(_) => 13
    case Var(_) => 14
    case Datasec(_) => 15
    case Float => 16
    case DeclTag(_) => 17
    case TypeTag => 18
    case Enum64(_) => 19
  }

  /** Bit 31 the kind flag, bits 24 to 28 the kind, bits 0 to 15 vlen. */
  function InfoWord(w: Wire): (info: u32)
    requires WireOk(w)
  {
    (if w.kflag then 0x8000_0000 else 0)
    + w.unusedHigh * 0x2000_0000 + Code(w.body) * 0x100_0000 + w.unusedLow * 0x1_0000 + w.vlen
  }

  ghost predicate WireOk(w: Wire) {
    && w.unusedHigh < 4 && w.unusedLow < 0x100 && w.vlen < 0x1_0000
    && BodyOk(w.body, w.vlen, w.kflag)
  }

  ghost predicate BodyOk(b: Body, vlen: nat, kflag: bool) {
    match b
    case Int(reserved, flags, offset, bits) => reserved < 16 && flags < 16 && offset < 0x100 && bits < 0x100
    case Struct(ms) => |ms| == vlen && MembersOk(ms, kflag)
    case Union(ms) => |ms| == vlen && MembersOk(ms, kflag)
    case Enum(es) => |es| == vlen && EnumsOk(es, false)
    case Enum64(es) => |es| == vlen && EnumsOk(es, true)
    case FuncProto(ps) => |ps| == vlen
    case Datasec(vs) => |vs| == vlen
    case _ => true
  }

  // ---------- words, members, enumerators ----------

  function FieldBytes(f: seq<u32>): (s: seq<u8>)
    ensures |s| == 4 * |f|
  {
    if f == [] then [] else FieldBytes(f[..|f| - 1]) + Encode(f[|f| - 1], 4)
  }

  /** With the kind flag set a member's last word holds the bit size in its top byte. */
  function MemberFields(m: Member, kflag: bool): (f: seq<u32>)
    requires MemberOk(m, kflag)
    ensures |f| == 3
  {
    [m.nameOff, m.typ, if kflag then m.bitSize * 0x100_0000 + m.bitOffset else m.bitOffset]
  }

  predicate MemberOk(m: Member, kflag: bool) {
    if kflag then m.bitOffset < 0x100_0000 && m.bitSize < 0x100 else m.bitSize == 0
  }

  predicate EnumOk(e: EnumVal, wide: bool) {
    if wide then -0x8000_0000_0000_0000 <= e.value < 0x8000_0000_0000_0000 else -0x8000_0000 <= e.value < 0x8000_0000
  }

  /** Values in two's complement; a 64-bit one as its low and its high half. */
  function EnumFields(e: EnumVal, wide: bool): (f: seq<u32>)
    requires EnumOk(e, wide)
    ensures |f| == if wide then 3 else 2
  {
    if wide then
      var u := if e.value >= 0 then e.value else e.value + TWO_64;
      [e.nameOff, u % 0x1_0000_0000, u / 0x1_0000_0000]
    else [e.nameOff, if e.value >= 0 then e.value else e.value + 0x1_0000_0000]
  }

  function EnumBytes(e: EnumVal, wide: bool): (s: seq<u8>)
    requires EnumOk(e, wide)
    ensures |s| == if wide then 12 else 8
  {
    FieldBytes(EnumFields(e, wide))
  }

  ghost predicate MembersOk(ms: seq<Member>, kflag: bool) {
    forall m | m in ms :: MemberOk(m, kflag)
  }

  ghost predicate EnumsOk(es: seq<EnumVal>, wide: bool) {
    forall e | e in es :: EnumOk(e, wide)
  }

  function MembersBytes(ms: seq<Member>, kflag: bool): (s: seq<u8>)
    requires MembersOk(ms, kflag)
    ensures |s| == 12 * |ms|
  {
    if ms == [] then []
    else MembersBytes(ms[..|ms| - 1], kflag) + FieldBytes(MemberFields(ms[|ms| - 1], kflag))
  }

  function EnumsBytes(es: seq<EnumVal>, wide: bool): (s: seq<u8>)
    requires EnumsOk(es, wide)
    ensures |s| == if wide then 12 * |es| else 8 * |es|
  {
    if es == [] then []
    else EnumsBytes(es[..|es| - 1], wide) + EnumBytes(es[|es| - 1], wide)
  }

  /** A parameter is two words. */
  function ParamWords(ps: seq<Param>): (f: seq<u32>)
    ensures |f| == 2 * |ps|
  {
    if ps == [] then [] else ParamWords(ps[..|ps| - 1]) + [ps[|ps| - 1].nameOff, ps[|ps| - 1].typ]
  }

  /** A variable of a section is three words. */
  function SecInfoWords(vs: seq<SecInfo>): (f: seq<u32>)
    ensures |f| == 3 * |vs|
  {
    if vs == [] then [] else SecInfoWords(vs[..|vs| - 1]) + [vs[|vs| - 1].typ, vs[|vs| - 1].offset, vs[|vs| - 1].size]
  }

  // ---------- a type, a section ----------

  function Tail(b: Body, vlen: nat, kflag: bool): seq<u8>
    requires BodyOk(b, vlen, kflag)
  {
    match b
    case Int(reserved, flags, offset, bits) =>
      FieldBytes([reserved * 0x1000_0000 + flags * 0x100_0000 + offset * 0x1_0000 + bits])
    case Array(element, index, count) => FieldBytes([element, index, count])
    case Struct(ms) => MembersBytes(ms, kflag)
    case Union(ms) => MembersBytes(ms, kflag)
    case Enum(es) => EnumsBytes(es, false)
    case Enum64(es) => EnumsBytes(es, true)
    case FuncProto(ps) => FieldBytes(ParamWords(ps))
    case Var(linkage) => FieldBytes([linkage])
    case Datasec(vs) => FieldBytes(SecInfoWords(vs))
    case DeclTag(component) => FieldBytes([component])
    case _ => []
  }

  function TypeBytes(w: Wire): (s: seq<u8>)
    requires WireOk(w)
    ensures |s| >= 12
  {
    FieldBytes([w.nameOff, InfoWord(w), w.sizeOrType]) + Tail(w.body, w.vlen, w.kflag)
  }

  ghost predicate AllOk(ws: seq<Wire>) {
    forall w | w in ws :: WireOk(w)
  }

  function SectionBytes(ws: seq<Wire>): seq<u8>
    requires AllOk(ws)
  {
    if ws == [] then [] else TypeBytes(ws[0]) + SectionBytes(ws[1..])
  }
}
