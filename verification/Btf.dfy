/**
 The BTF type section (parse_types in src/symbols/btf_to_isf.cpp): one 12-byte
 header per type, then a tail whose shape depends on the kind. Names are kept as
 offsets into the string section.
 */
module Btf {
  import opened Words
  import opened BtfFormat

  const K_VOID := 0
  const K_INT := 1
  const K_PTR := 2
  const K_ARRAY := 3
  const K_STRUCT := 4
  const K_UNION := 5
  const K_ENUM := 6
  const K_FWD := 7
  const K_TYPEDEF := 8
  const K_VOLATILE := 9
  const K_CONST := 10
  const K_RESTRICT := 11
  const K_FUNC := 12
  const K_FUNC_PROTO := 13
  const K_VAR := 14
  const K_DATASEC := 15
  const K_FLOAT := 16
  const K_DECL_TAG := 17
  const K_TYPE_TAG := 18
  const K_ENUM64 := 19

  const TWO_24 := 0x100_0000
  const TWO_31 := 0x8000_0000

  function KindOf(info: u32): nat { info / TWO_24 % 32 }
  function VlenOf(info: u32): nat { info % 0x1_0000 }
  predicate KflagOf(info: u32) { info / TWO_31 == 1 }

  datatype Extra =
    | NoExtra
    | IntExtra(flags: nat, offset: nat, bits: nat)
    | ArrayExtra(element: u32, count: u32)
    | Members(members: seq<Member>)
    | Enums(values: seq<EnumVal>)

  datatype Decoded = Decoded(nameOff: u32, info: u32, sizeOrType: u32, extra: Extra)

  const VOID := Decoded(0, 0, 0, NoExtra)

  // ---------- records ----------

  /** n four-byte words at off. */
  function Fields(buf: seq<u8>, off: nat, n: nat): (f: seq<u32>)
    requires off + 4 * n <= |buf|
    ensures |f| == n
  {
    if n == 0 then []
    else
      Pow256Values();
      Fields(buf, off, n - 1) + [WordAt(buf, off + 4 * (n - 1), 4)]
  }

  lemma TwoParts(buf: seq<u8>, off: nat, x: seq<u8>, y: seq<u8>)
    requires off + |x| + |y| <= |buf| && buf[off..off + |x| + |y|] == x + y
    ensures buf[off..off + |x|] == x && buf[off + |x|..off + |x| + |y|] == y
  {
    SliceOfSlice(buf, off, off + |x| + |y|, 0, |x|);
    SliceOfSlice(buf, off, off + |x| + |y|, |x|, |x| + |y|);
  }

  lemma {:induction false} FieldsReadBack(buf: seq<u8>, off: nat, f: seq<u32>)
    requires off + 4 * |f| <= |buf| && buf[off..off + 4 * |f|] == FieldBytes(f)
    ensures Fields(buf, off, |f|) == f
  {
    hide Encode, Decode;
    if f != [] {
      var g, last := f[..|f| - 1], f[|f| - 1];
      TwoParts(buf, off, FieldBytes(g), Encode(last, 4));
      FieldsReadBack(buf, off, g);
      Pow256Values();
      DecodeEncode(last, 4);
      assert f == g + [last];
    }
  }

  // ---------- one member, one enumerator ----------

  /** With the kind flag set a member's last word holds the bit size in its top byte. */
  function MemberOf(f: seq<u32>, kflag: bool): Member
    requires |f| == 3
  {
    if kflag then Member(f[0], f[1], f[2] % TWO_24, f[2] / TWO_24) else Member(f[0], f[1], f[2], 0)
  }

  function Signed32(v: u32): int { if v < TWO_31 then v else v - TWO_32 }
  function Signed64(v: u64): int { if v < TWO_64 / 2 then v else v - TWO_64 }

  function EnumOf(f: seq<u32>): EnumVal
    requires |f| == 2 || |f| == 3
  {
    EnumVal(f[0], if |f| == 2 then Signed32(f[1]) else Signed64(f[2] * TWO_32 + f[1]))
  }

  lemma MemberBack(m: Member, kflag: bool)
    requires MemberOk(m, kflag)
    ensures MemberOf(MemberFields(m, kflag), kflag) == m
  {
  }

  lemma EnumBack(e: EnumVal, wide: bool)
    requires EnumOk(e, wide)
    ensures EnumOf(EnumFields(e, wide)) == e
  {
  }

  // ---------- lists of them ----------

  function MembersAt(buf: seq<u8>, off: nat, n: nat, kflag: bool): (ms: seq<Member>)
    requires off + 12 * n <= |buf|
    ensures |ms| == n
  {
    if n == 0 then []
    else MembersAt(buf, off, n - 1, kflag) + [MemberOf(Fields(buf, off + 12 * (n - 1), 3), kflag)]
  }

  /** The bytes of n enumerators: eight each, or twelve when wide. */
  function EnumLen(n: nat, wide: bool): nat { if wide then 12 * n else 8 * n }

  function EnumsAt(buf: seq<u8>, off: nat, n: nat, wide: bool): (es: seq<EnumVal>)
    requires off + EnumLen(n, wide) <= |buf|
    ensures |es| == n
  {
    if n == 0 then []
    else
      EnumsAt(buf, off, n - 1, wide) + [EnumAt(buf, off + EnumLen(n - 1, wide), wide)]
  }

  function EnumAt(buf: seq<u8>, off: nat, wide: bool): EnumVal
    requires off + EnumLen(1, wide) <= |buf|
  {
    EnumOf(Fields(buf, off, if wide then 3 else 2))
  }

  lemma OneEnumBack(buf: seq<u8>, off: nat, e: EnumVal, wide: bool)
    requires EnumOk(e, wide) && off + EnumLen(1, wide) <= |buf|
    requires buf[off..off + EnumLen(1, wide)] == EnumBytes(e, wide)
    ensures EnumAt(buf, off, wide) == e
  {
    hide Fields, FieldBytes, EnumOf, EnumFields;
    FieldsReadBack(buf, off, EnumFields(e, wide));
    EnumBack(e, wide);
  }

  lemma LastMember(buf: seq<u8>, off: nat, ms: seq<Member>, kflag: bool)
    requires MembersOk(ms, kflag) && ms != [] && off + 12 * |ms| <= |buf|
    ensures var n := |ms| - 1;
      && MembersOk(ms[..n], kflag) && MemberOk(ms[n], kflag) && ms == ms[..n] + [ms[n]]
      && MembersBytes(ms, kflag) == MembersBytes(ms[..n], kflag) + FieldBytes(MemberFields(ms[n], kflag))
      && MembersAt(buf, off, |ms|, kflag)
         == MembersAt(buf, off, n, kflag) + [MemberOf(Fields(buf, off + 12 * n, 3), kflag)]
  {
    hide Fields, FieldBytes, MemberOf, MemberFields, MemberOk, MembersOk, MembersBytes;
    FrontOk(ms, kflag);
    LastMemberBytes(ms, kflag);
  }

  lemma FrontOk(ms: seq<Member>, kflag: bool)
    requires MembersOk(ms, kflag) && ms != []
    ensures MembersOk(ms[..|ms| - 1], kflag) && MemberOk(ms[|ms| - 1], kflag)
  {
    hide MemberOk;
    assert ms[|ms| - 1] in ms;
  }

  lemma LastMemberBytes(ms: seq<Member>, kflag: bool)
    requires MembersOk(ms, kflag) && ms != []
    ensures var n := |ms| - 1;
      && MembersOk(ms[..n], kflag) && MemberOk(ms[n], kflag)
      && MembersBytes(ms, kflag) == MembersBytes(ms[..n], kflag) + FieldBytes(MemberFields(ms[n], kflag))
  {
    hide FieldBytes, MemberFields, MemberOk, MembersOk;
    FrontOk(ms, kflag);
  }

  lemma {:induction false} MembersReadBack(buf: seq<u8>, off: nat, ms: seq<Member>, kflag: bool)
    requires MembersOk(ms, kflag) && off + 12 * |ms| <= |buf|
    requires buf[off..off + 12 * |ms|] == MembersBytes(ms, kflag)
    ensures MembersAt(buf, off, |ms|, kflag) == ms
  {
    hide Fields, FieldBytes, MemberOf, MemberFields, MemberOk, MembersOk, MembersAt, MembersBytes;
    if ms == [] {
      NoMembers(buf, off, kflag);
    } else {
      var g, last := ms[..|ms| - 1], ms[|ms| - 1];
      LastMember(buf, off, ms, kflag);
      TwoParts(buf, off, MembersBytes(g, kflag), FieldBytes(MemberFields(last, kflag)));
      MembersReadBack(buf, off, g, kflag);
      FieldsReadBack(buf, off + 12 * |g|, MemberFields(last, kflag));
      MemberBack(last, kflag);
    }
  }

  lemma NoMembers(buf: seq<u8>, off: nat, kflag: bool)
    requires off <= |buf|
    ensures MembersAt(buf, off, 0, kflag) == []
  {
  }

  lemma LastEnum(buf: seq<u8>, off: nat, es: seq<EnumVal>, wide: bool)
    requires EnumsOk(es, wide) && es != [] && off + EnumLen(|es|, wide) <= |buf|
    ensures var n := |es| - 1;
      && EnumLen(n, wide) + EnumLen(1, wide) == EnumLen(|es|, wide) && EnumsOk(es[..n], wide) && es[n] in es
      && EnumsBytes(es, wide) == EnumsBytes(es[..n], wide) + EnumBytes(es[n], wide)
      && EnumsAt(buf, off, |es|, wide) == EnumsAt(buf, off, n, wide) + [EnumAt(buf, off + EnumLen(n, wide), wide)]
  {
    hide EnumAt, EnumBytes, EnumOk, EnumLen;
    EnumLenAdds(|es| - 1, wide);
  }

  lemma EnumLenAdds(n: nat, wide: bool)
    ensures EnumLen(n, wide) + EnumLen(1, wide) == EnumLen(n + 1, wide)
  {
  }

  lemma {:induction false} EnumsReadBack(buf: seq<u8>, off: nat, es: seq<EnumVal>, wide: bool)
    requires EnumsOk(es, wide) && off + EnumLen(|es|, wide) <= |buf|
    requires buf[off..off + EnumLen(|es|, wide)] == EnumsBytes(es, wide)
    ensures EnumsAt(buf, off, |es|, wide) == es
  {
    hide EnumAt, EnumBytes, EnumOk, EnumsAt, EnumsBytes;
    if es != [] {
      var g, last := es[..|es| - 1], es[|es| - 1];
      assert last in es && forall e | e in g :: e in es;
      LastEnum(buf, off, es, wide);
      TwoParts(buf, off, EnumsBytes(g, wide), EnumBytes(last, wide));
      EnumsReadBack(buf, off, g, wide);
      OneEnumBack(buf, off + EnumLen(|g|, wide), last, wide);
      assert es == g + [last];
    }
  }

  // ---------- one type ----------

  /** Bytes of the tail by kind; unknown kinds are taken to have none. */
  function TailSize(info: u32): nat {
    var k, vlen := KindOf(info), VlenOf(info);
    if k == K_INT || k == K_VAR || k == K_DECL_TAG then 4
    else if k == K_ARRAY then 12
    else if k == K_STRUCT || k == K_UNION || k == K_ENUM64 || k == K_DATASEC then 12 * vlen
    else if k == K_ENUM || k == K_FUNC_PROTO then 8 * vlen
    else 0
  }

  /** Tails that are stepped over without a look at the bytes, or a check that they are there. */
  predicate SkipsTail(info: u32) {
    var k := KindOf(info);
    k == K_FUNC_PROTO || k == K_VAR || k == K_DATASEC || k == K_DECL_TAG
  }

  function ExtraAt(buf: seq<u8>, off: nat, info: u32): Extra
    requires !SkipsTail(info) ==> off + TailSize(info) <= |buf|
  {
    var k, vlen := KindOf(info), VlenOf(info);
    if k == K_INT then
      var enc := Fields(buf, off, 1)[0];
      IntExtra(enc / TWO_24 % 16, enc / 0x1_0000 % 0x100, enc % 0x100)
    else if k == K_ARRAY then
      var f := Fields(buf, off, 3);
      ArrayExtra(f[0], f[2])
    else if k == K_STRUCT || k == K_UNION then Members(MembersAt(buf, off, vlen, KflagOf(info)))
    else if k == K_ENUM then Enums(EnumsAt(buf, off, vlen, false))
    else if k == K_ENUM64 then Enums(EnumsAt(buf, off, vlen, true))
    else NoExtra
  }

  datatype Step = Stop | Next(d: Decoded, off: nat)

  /** One turn of the loop; the offset is a u32, and a skipped tail can take it past 2^32. */
  function StepAt(buf: seq<u8>, off: nat): Step
    requires off + 12 <= |buf|
  {
    var f := Fields(buf, off, 3);
    var tail := off + 12;
    if !SkipsTail(f[1]) && tail + TailSize(f[1]) > |buf| then Stop
    else Next(Decoded(f[0], f[1], f[2], ExtraAt(buf, tail, f[1])), (tail + TailSize(f[1])) % TWO_32)
  }

  lemma TailSizeBound(info: u32)
    ensures TailSize(info) <= 12 * 0xffff
  {
  }

  /** The loop moves forward exactly when the offset does not pass 2^32. */
  lemma StepAdvancesIff(buf: seq<u8>, off: nat)
    requires off + 12 <= |buf| < TWO_32 && StepAt(buf, off).Next?
    ensures StepAt(buf, off).off > off
      <==> off + 12 + TailSize(Fields(buf, off, 3)[1]) < TWO_32
  {
    hide TailSize, ExtraAt, Fields;
    TailSizeBound(Fields(buf, off, 3)[1]);
  }

  /** A function prototype of one parameter in the last bytes of the largest section sends the loop back to offset 7. */
  lemma StepGoesBack(buf: seq<u8>, off: nat)
    requires |buf| == TWO_32 - 1 && off + 12 == |buf|
    requires Fields(buf, off, 3)[1] == K_FUNC_PROTO * TWO_24 + 1
    ensures StepAt(buf, off).Next? && StepAt(buf, off).off == 7
  {
    hide ExtraAt, Fields;
  }

  // ---------- the section ----------

  /** From off on the offset never passes 2^32, so that the loop only moves forward. */
  ghost predicate Advances(buf: seq<u8>, off: nat)
    decreases |buf| - off
  {
    off + 12 <= |buf| ==>
      match StepAt(buf, off)
      case Stop => true
      case Next(_, next) => off < next && Advances(buf, next)
  }

  /** A section so much below 2^32 that no tail can wrap the offset. */
  lemma {:induction false} ShortSectionsAdvance(buf: seq<u8>, off: nat)
    requires |buf| + 12 * 65535 < 0x1_0000_0000
    ensures Advances(buf, off)
    decreases |buf| - off
  {
    hide StepAt;
    if off + 12 <= |buf| && StepAt(buf, off).Next? {
      ShortStep(buf, off);
      ShortSectionsAdvance(buf, StepAt(buf, off).off);
    }
  }

  lemma ShortStep(buf: seq<u8>, off: nat)
    requires off + 12 <= |buf| && |buf| + 12 * 65535 < TWO_32 && StepAt(buf, off).Next?
    ensures StepAt(buf, off).off > off
  {
    hide TailSize, ExtraAt, Fields;
    TailSizeBound(Fields(buf, off, 3)[1]);
  }

  function ParseFrom(buf: seq<u8>, off: nat): seq<Decoded>
    requires Advances(buf, off)
    decreases |buf| - off
  {
    if off + 12 > |buf| then []
    else
      match StepAt(buf, off)
      case Stop => []
      case Next(d, next) => [d] + ParseFrom(buf, next)
  }

  method ReadMembers(buf: seq<u8>, off: nat, n: nat, kflag: bool) returns (ok: bool, ms: seq<Member>)
    ensures ok <==> off + 12 * n <= |buf|
    ensures ok ==> ms == MembersAt(buf, off, n, kflag)
  {
    hide Fields, MemberOf;
    ms := [];
    var cur := off;
    for i := 0 to n
      invariant cur == off + 12 * i && (i > 0 ==> cur <= |buf|)
      invariant cur <= |buf| ==> ms == MembersAt(buf, off, i, kflag)
    {
      if cur + 12 > |buf| { return false, ms; }
      ms := ms + [MemberOf(Fields(buf, cur, 3), kflag)];
      cur := cur + 12;
    }
    ok := cur <= |buf|;
  }

  method ReadEnums(buf: seq<u8>, off: nat, n: nat, wide: bool) returns (ok: bool, es: seq<EnumVal>)
    ensures ok <==> off + EnumLen(n, wide) <= |buf|
    ensures ok ==> es == EnumsAt(buf, off, n, wide)
  {
    hide Fields, EnumOf;
    es := [];
    var cur := off;
    for i := 0 to n
      invariant cur == off + EnumLen(i, wide) && (i > 0 ==> cur <= |buf|)
      invariant cur <= |buf| ==> es == EnumsAt(buf, off, i, wide)
    {
      if cur + EnumLen(1, wide) > |buf| { return false, es; }
      es := es + [EnumAt(buf, cur, wide)];
      cur := cur + EnumLen(1, wide);
    }
    ok := cur <= |buf|;
  }

  /** The switch over the kinds. */
  method ReadExtra(buf: seq<u8>, off: nat, info: u32) returns (ok: bool, extra: Extra)
    requires off <= |buf|
    ensures ok <==> SkipsTail(info) || off + TailSize(info) <= |buf|
    ensures ok ==> extra == ExtraAt(buf, off, info)
  {
    hide Fields, MembersAt, EnumsAt;
    var k, vlen := KindOf(info), VlenOf(info);
    ok, extra := true, NoExtra;
    if k == K_INT {
      if off + 4 > |buf| { return false, NoExtra; }
      var enc := Fields(buf, off, 1)[0];
      extra := IntExtra(enc / TWO_24 % 16, enc / 0x1_0000 % 0x100, enc % 0x100);
    } else if k == K_ARRAY {
      if off + 12 > |buf| { return false, NoExtra; }
      var f := Fields(buf, off, 3);
      extra := ArrayExtra(f[0], f[2]);
    } else if k == K_STRUCT || k == K_UNION {
      var fits, ms := ReadMembers(buf, off, vlen, KflagOf(info));
      if !fits { return false, NoExtra; }
      extra := Members(ms);
    } else if k == K_ENUM || k == K_ENUM64 {
      var fits, es := ReadEnums(buf, off, vlen, k == K_ENUM64);
      if !fits { return false, NoExtra; }
      extra := Enums(es);
    }
  }

  // ---------- the round trip with the format ----------

  lemma InfoFields(w: Wire)
    requires WireOk(w)
    ensures KindOf(InfoWord(w)) == Code(w.body) && VlenOf(InfoWord(w)) == w.vlen && KflagOf(InfoWord(w)) == w.kflag
  {
    hide BodyOk;
    var high := (if w.kflag then 4 else 0) + w.unusedHigh;
    var code := Code(w.body);
    InfoParts(high, code, w.unusedLow, w.vlen);
    assert InfoWord(w) == high * 0x2000_0000 + code * 0x100_0000 + w.unusedLow * 0x1_0000 + w.vlen;
  }

  lemma InfoParts(high: nat, code: nat, low: nat, vlen: nat)
    requires high < 8 && code < 32 && low < 0x100 && vlen < 0x1_0000
    ensures var info := high * 0x2000_0000 + code * 0x100_0000 + low * 0x1_0000 + vlen;
      && info < TWO_32 && info / TWO_24 % 32 == code && info % 0x1_0000 == vlen
      && (info / TWO_31 == 1 <==> high >= 4)
  {
    var info := high * 0x2000_0000 + code * 0x100_0000 + low * 0x1_0000 + vlen;
    assert info / TWO_24 == high * 32 + code;
    assert info == (high * 0x2000 + code * 0x100 + low) * 0x1_0000 + vlen;
  }

  /** Every tail of the format has the length the parser steps over. */
  lemma TailLength(w: Wire)
    requires WireOk(w)
    ensures |Tail(w.body, w.vlen, w.kflag)| == TailSize(InfoWord(w))
  {
    hide FieldBytes, MembersBytes, EnumsBytes, ParamWords, SecInfoWords, MembersOk, EnumsOk, InfoWord, KindOf, VlenOf;
    InfoFields(w);
  }

  /** What the parser keeps of a tail; parameters, linkage, variables and component indexes are dropped. */
  function Kept(b: Body): Extra {
    match b
    case Int(_, flags, offset, bits) => IntExtra(flags, offset, bits)
    case Array(element, _, count) => ArrayExtra(element, count)
    case Struct(ms) => Members(ms)
    case Union(ms) => Members(ms)
    case Enum(es) => Enums(es)
    case Enum64(es) => Enums(es)
    case _ => NoExtra
  }

  function KeptType(w: Wire): Decoded
    requires WireOk(w)
  {
    Decoded(w.nameOff, InfoWord(w), w.sizeOrType, Kept(w.body))
  }

  function KeptTypes(ws: seq<Wire>): (ds: seq<Decoded>)
    requires AllOk(ws)
    ensures |ds| == |ws| && forall i | 0 <= i < |ws| :: ds[i] == KeptType(ws[i])
  {
    if ws == [] then [] else [KeptType(ws[0])] + KeptTypes(ws[1..])
  }

  lemma IntReadsBack(buf: seq<u8>, off: nat, info: u32, reserved: nat, flags: nat, offset: nat, bits: nat)
    requires KindOf(info) == K_INT && off + 4 <= |buf|
    requires reserved < 16 && flags < 16 && offset < 0x100 && bits < 0x100
    requires buf[off..off + 4]
      == FieldBytes([reserved * 0x1000_0000 + flags * 0x100_0000 + offset * 0x1_0000 + bits])
    ensures ExtraAt(buf, off, info) == IntExtra(flags, offset, bits)
  {
    hide Fields, FieldBytes;
    var enc := reserved * 0x1000_0000 + flags * 0x100_0000 + offset * 0x1_0000 + bits;
    FieldsReadBack(buf, off, [enc]);
    IntParts(reserved, flags, offset, bits);
  }

  lemma IntParts(reserved: nat, flags: nat, offset: nat, bits: nat)
    requires reserved < 16 && flags < 16 && offset < 0x100 && bits < 0x100
    ensures var enc := reserved * 0x1000_0000 + flags * 0x100_0000 + offset * 0x1_0000 + bits;
      enc / TWO_24 % 16 == flags && enc / 0x1_0000 % 0x100 == offset && enc % 0x100 == bits
  {
    var enc := reserved * 0x1000_0000 + flags * 0x100_0000 + offset * 0x1_0000 + bits;
    assert enc == 0x1_0000 * (reserved * 0x1000 + flags * 0x100 + offset) + bits;
    assert enc / 0x1_0000 == reserved * 0x1000 + flags * 0x100 + offset;
    assert enc / TWO_24 == reserved * 16 + flags;
  }

  lemma ExtraReadsBack(buf: seq<u8>, off: nat, w: Wire)
    requires WireOk(w) && off + TailSize(InfoWord(w)) <= |buf|
    requires buf[off..off + TailSize(InfoWord(w))] == Tail(w.body, w.vlen, w.kflag)
    ensures ExtraAt(buf, off, InfoWord(w)) == Kept(w.body)
  {
    hide Fields, FieldBytes, MembersAt, EnumsAt, MembersBytes, EnumsBytes, MembersOk, EnumsOk, InfoWord, KindOf, VlenOf;
    hide KflagOf, TailSize;
    var info := InfoWord(w);
    InfoFields(w);
    TailLength(w);
    match w.body
    case Int(reserved, flags, offset, bits) => IntReadsBack(buf, off, info, reserved, flags, offset, bits);
    case Array(element, index, count) => FieldsReadBack(buf, off, [element, index, count]);
    case Struct(ms) => MembersReadBack(buf, off, ms, w.kflag);
    case Union(ms) => MembersReadBack(buf, off, ms, w.kflag);
    case Enum(es) => EnumsReadBack(buf, off, es, false);
    case Enum64(es) => EnumsReadBack(buf, off, es, true);
    case _ =>
  }

  lemma StepReadsBack(buf: seq<u8>, off: nat, w: Wire)
    requires WireOk(w) && off + |TypeBytes(w)| <= |buf| < TWO_32
    requires buf[off..off + |TypeBytes(w)|] == TypeBytes(w)
    ensures StepAt(buf, off) == Next(KeptType(w), off + |TypeBytes(w)|)
  {
    hide Fields, FieldBytes, ExtraAt, Tail, TailSize, BodyOk, SkipsTail, InfoWord, Kept;
    var head := [w.nameOff, InfoWord(w), w.sizeOrType];
    TailLength(w);
    TwoParts(buf, off, FieldBytes(head), Tail(w.body, w.vlen, w.kflag));
    FieldsReadBack(buf, off, head);
    ExtraReadsBack(buf, off + 12, w);
  }

  /**
   Wherever the bytes of a list of types stand, the parser reads exactly that list
   and goes on behind it.
   */
  lemma {:induction false} ParseInvertsEncoding(buf: seq<u8>, off: nat, ws: seq<Wire>)
    requires AllOk(ws) && |buf| < TWO_32
    requires off + |SectionBytes(ws)| <= |buf| && buf[off..off + |SectionBytes(ws)|] == SectionBytes(ws)
    ensures var next := off + |SectionBytes(ws)|;
      && (Advances(buf, off) <==> Advances(buf, next))
      && (Advances(buf, off) ==> ParseFrom(buf, off) == KeptTypes(ws) + ParseFrom(buf, next))
    decreases |ws|
  {
    hide TypeBytes, StepAt, WireOk, KeptType;
    if ws != [] {
      assert ws[0] in ws;
      var n := |TypeBytes(ws[0])|;
      TwoParts(buf, off, TypeBytes(ws[0]), SectionBytes(ws[1..]));
      StepReadsBack(buf, off, ws[0]);
      ParseInvertsEncoding(buf, off + n, ws[1..]);
    }
  }

  /** Type ids are positions in the section, counted from 1. */
  lemma TypeIds(ws: seq<Wire>, i: nat)
    requires AllOk(ws) && |SectionBytes(ws)| < TWO_32 && 1 <= i <= |ws|
    ensures Advances(SectionBytes(ws), 0)
    ensures var out := [VOID] + ParseFrom(SectionBytes(ws), 0);
      out == [VOID] + KeptTypes(ws) && out[i] == KeptType(ws[i - 1])
  {
    hide SectionBytes, AllOk, KeptType, StepAt;
    var buf := SectionBytes(ws);
    assert buf[0..0 + |buf|] == buf;
    ParseInvertsEncoding(buf, 0, ws);
    assert Advances(buf, |buf|) && ParseFrom(buf, |buf|) == [];
  }

  /** Type lists as the format writes them come back whole, whatever follows them. */
  ghost predicate ReadsWritten(buf: seq<u8>, out: seq<Decoded>) {
    && (forall ws | AllOk(ws) && SectionBytes(ws) <= buf :: [Decoded(0, 0, 0, NoExtra)] + KeptTypes(ws) <= out)
    && (forall ws | AllOk(ws) && SectionBytes(ws) == buf :: out == [Decoded(0, 0, 0, NoExtra)] + KeptTypes(ws))
  }

  lemma WrittenIsRead(buf: seq<u8>)
    requires |buf| < TWO_32 && Advances(buf, 0)
    ensures ReadsWritten(buf, [VOID] + ParseFrom(buf, 0))
  {
    hide SectionBytes, AllOk, KeptTypes, StepAt;
    forall ws | AllOk(ws) && SectionBytes(ws) <= buf
      ensures [VOID] + KeptTypes(ws) <= [VOID] + ParseFrom(buf, 0)
      ensures SectionBytes(ws) == buf ==> ParseFrom(buf, 0) == KeptTypes(ws)
    {
      var n := |SectionBytes(ws)|;
      assert buf[0..0 + n] == SectionBytes(ws);
      ParseInvertsEncoding(buf, 0, ws);
      assert n == |buf| ==> ParseFrom(buf, n) == [];
    }
  }

  /** The loop over the section. Where the offset would pass 2^32 the loop goes back, and need not end. */
  method ParseTypes(buf: seq<u8>) returns (out: seq<Decoded>)
    requires |buf| < TWO_32 && Advances(buf, 0)
    ensures out == [VOID] + ParseFrom(buf, 0)
    ensures ReadsWritten(buf, out)
  {
    hide Fields, ExtraAt, TailSize, KindOf, VlenOf, SkipsTail, ReadsWritten;
    WrittenIsRead(buf);
    out := [VOID];
    var off := 0;
    while off + 12 <= |buf|
      invariant Advances(buf, off) && out + ParseFrom(buf, off) == [VOID] + ParseFrom(buf, 0)
      decreases |buf| - off
    {
      var f := Fields(buf, off, 3);
      var ok, extra := ReadExtra(buf, off + 12, f[1]);
      if !ok { break; }
      out := out + [Decoded(f[0], f[1], f[2], extra)];
      off := (off + 12 + TailSize(f[1])) % TWO_32;
    }
  }
}
