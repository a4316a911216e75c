/**
  The integer ids of scalar types (vllm/scalar_type.py) and the registry from ids back to types.
 */
module ScalarTypeIds {
  import Arithmetic
  import opened ScalarTypes

  function NanReprValue(n: NanRepr): nat {
    match n
    case NONE => 0
    case IEEE_754 => 1
    case EXTD_RANGE_MAX_MIN => 2
  }

  function Flag(b: bool): nat { if b then 1 else 0 }

  /** int(member) & ((1 << width) - 1): the member modulo 2^width, also when it is negative. */
  function Masked(member: int, width: nat): nat { member % Pow2(width) }

  /** The fields laid out from bit 0 on: 8 + 8 + 1 + 32 + 1 + 8 = 58 bits. */
  function Pack(t: ScalarType): nat {
    t.exponent % 0x100 + (t.mantissa % 0x100) * 0x100 + Flag(t.signed) * 0x1_0000
    + (t.bias % 0x1_0000_0000) * 0x2_0000 + Flag(t.finiteValuesOnly) * 0x2_0000_0000_0000
    + NanReprValue(t.nanRepr) * 0x4_0000_0000_0000
  }

  /** Field widths that lose nothing, and a bias in a window of 2^32 values from `low` on. */
  ghost predicate Fits(t: ScalarType, low: int) {
    t.exponent < 0x100 && t.mantissa < 0x100 && low <= t.bias < low + 0x1_0000_0000
  }

  lemma EightMoreBits(k: nat)
    ensures Pow2(k + 8) == 0x100 * Pow2(k)
  {
    assert Pow2(k + 2) == 4 * Pow2(k) && Pow2(k + 4) == 4 * Pow2(k + 2);
    assert Pow2(k + 6) == 4 * Pow2(k + 4);
  }

  /** The places of the six fields, and the end of the last. */
  lemma FieldPlaces()
    ensures Pow2(0) == 1 && Pow2(8) == 0x100 && Pow2(16) == 0x1_0000 && Pow2(17) == 0x2_0000
    ensures Pow2(49) == 0x2_0000_0000_0000 && Pow2(50) == 0x4_0000_0000_0000 && Pow2(58) == 0x400_0000_0000_0000
  {
    EightMoreBits(0);
    EightMoreBits(8);
    assert Pow2(17) == 2 * Pow2(16);
    EightMoreBits(17);
    EightMoreBits(25);
    EightMoreBits(33);
    EightMoreBits(41);
    assert Pow2(50) == 2 * Pow2(49);
    EightMoreBits(50);
  }

  lemma PackFits58Bits(t: ScalarType)
    ensures Pack(t) < 0x400_0000_0000_0000 == Pow2(58)
  {
    FieldPlaces();
  }

  lemma FieldWidths()
    ensures Pow2(1) == 2 && Pow2(8) == 0x100 && Pow2(32) == 0x1_0000_0000
  {
    EightMoreBits(0);
    EightMoreBits(8);
    EightMoreBits(16);
    EightMoreBits(24);
  }

  lemma DoubledFactor(x: int, y: int)
    ensures 2 * (x * y) == x * (2 * y)
  {}

  lemma {:induction false} ShlIsProduct(x: nat, k: nat)
    ensures Shl(x, k) == x * Pow2(k)
    decreases k
  {
    if k > 0 {
      ShlIsProduct(x, k - 1);
      DoubledFactor(x, Pow2(k - 1));
    }
  }

  /** The masked members, by the widths of their fields. */
  lemma MaskedFields(t: ScalarType)
    ensures Masked(t.exponent, 8) == t.exponent % 0x100 && Masked(t.mantissa, 8) == t.mantissa % 0x100
    ensures Masked(t.bias, 32) == t.bias % 0x1_0000_0000
    ensures Masked(Flag(t.signed), 1) == Flag(t.signed) &&
      Masked(Flag(t.finiteValuesOnly), 1) == Flag(t.finiteValuesOnly)
    ensures Masked(NanReprValue(t.nanRepr), 8) == NanReprValue(t.nanRepr)
  {
    FieldWidths();
  }

  lemma SplitsAt(p: nat, low: nat, place: nat, high: nat)
    requires low < place && p == low + high * place
    ensures p / place == high && p % place == low
  {
    Arithmetic.DivIsLess(p, place, high);
    Arithmetic.DivIsLess(p, place, high + 1);
    Arithmetic.OneMore(high, place);
  }

  /** The fields can be read back from the id. */
  lemma FieldsOfPack(t: ScalarType)
    ensures var p := Pack(t);
            && p % 0x100 == t.exponent % 0x100
            && p / 0x100 % 0x100 == t.mantissa % 0x100
            && (p / 0x1_0000 % 2 == if t.signed then 1 else 0)
            && p / 0x2_0000 % 0x1_0000_0000 == t.bias % 0x1_0000_0000
            && (p / 0x2_0000_0000_0000 % 2 == if t.finiteValuesOnly then 1 else 0)
            && (p / 0x4_0000_0000_0000 == if t.nanRepr == NONE then 0 else if t.nanRepr == IEEE_754 then 1 else 2)
  {
    var e, m, s := t.exponent % 0x100, t.mantissa % 0x100, Flag(t.signed);
    var b, f := t.bias % 0x1_0000_0000, Flag(t.finiteValuesOnly);
    var n := NanReprValue(t.nanRepr);
    var p, p5 := Pack(t), f + 2 * n;
    var p4 := b + 0x1_0000_0000 * p5;
    var p3 := s + 2 * p4;
    var p2 := m + 0x100 * p3;
    SplitsAt(p, e, 0x100, p2);
    SplitsAt(p2, m, 0x100, p3);
    SplitsAt(p, e + 0x100 * m, 0x1_0000, p3);
    SplitsAt(p3, s, 2, p4);
    SplitsAt(p, e + 0x100 * m + 0x1_0000 * s, 0x2_0000, p4);
    SplitsAt(p4, b, 0x1_0000_0000, p5);
    SplitsAt(p, e + 0x100 * m + 0x1_0000 * s + 0x2_0000 * b, 0x2_0000_0000_0000, p5);
    SplitsAt(p5, f, 2, n);
    SplitsAt(p, e + 0x100 * m + 0x1_0000 * s + 0x2_0000 * b + 0x2_0000_0000_0000 * f, 0x4_0000_0000_0000, n);
  }

  /** The types agree as far as the packing can tell: widths modulo 2^8 and biases modulo 2^32. */
  ghost predicate SameFields(t: ScalarType, u: ScalarType) {
    && t.exponent % 0x100 == u.exponent % 0x100 && t.mantissa % 0x100 == u.mantissa % 0x100
    && t.bias % 0x1_0000_0000 == u.bias % 0x1_0000_0000
    && t.signed == u.signed && t.finiteValuesOnly == u.finiteValuesOnly && t.nanRepr == u.nanRepr
  }

  /** Exactly when two types share an id. */
  lemma SameIdIff(t: ScalarType, u: ScalarType)
    ensures Pack(t) == Pack(u) <==> SameFields(t, u)
  {
    FieldsOfPack(t);
    FieldsOfPack(u);
  }

  lemma SameModulo(a: int, b: int, low: int)
    requires low <= a < low + 0x1_0000_0000 && low <= b < low + 0x1_0000_0000
    requires a % 0x1_0000_0000 == b % 0x1_0000_0000
    ensures a == b
  {}

  /** Different types have different ids as long as the fields fit. */
  lemma PackIsInjective(t: ScalarType, u: ScalarType, low: int)
    requires Fits(t, low) && Fits(u, low) && Pack(t) == Pack(u)
    ensures t == u
  {
    SameIdIff(t, u);
    SameModulo(t.bias, u.bias, low);
  }

  /** A bias outside one window collides: 0 and 2^32 get the same id. */
  lemma BiasWrapsAround(t: ScalarType)
    ensures Pack(t) == Pack(t.(bias := t.bias + 0x1_0000_0000))
  {
    SameIdIff(t, t.(bias := t.bias + 0x1_0000_0000));
  }

  // ---------- computing the id and registering it ----------

  lemma BelowNextField(val: nat, masked: nat, offset: nat, width: nat)
    requires val < Pow2(offset) && masked < Pow2(width)
    ensures val + Shl(masked, offset) < Pow2(offset + width)
  {
    ShlAdds(masked, 1, offset);
    ShlOfPow2(0, offset);
    ShlOfPow2(width, offset);
    assert Pow2(0) == 1;
    if masked + 1 < Pow2(width) { ShlLess(masked + 1, Pow2(width), offset); }
  }

  class Registry {
    var ids: map<int, ScalarType>

    /** Every key is the id of its type. */
    ghost predicate Valid()
      reads this
    {
      forall k :: k in ids ==> Pack(ids[k]) == k
    }

    constructor ()
      ensures ids == map[] && Valid()
    {
      ids := map[];
    }

    /** or_and_advance: or the masked member in at the offset, whose place value is 2^offset. */
    method OrAndAdvance(val: nat, offset: nat, member: int, width: nat, ghost place: nat)
      returns (val': nat, offset': nat)
      requires val < place == Pow2(offset)
      ensures val' == val + Masked(member, width) * place && val' < Pow2(offset') && offset' == offset + width
    {
      var masked := Masked(member, width);
      OrDisjoint(val, masked, offset);
      val' := Or(val, Shl(masked, offset));
      offset' := offset + width;
      BelowNextField(val, masked, offset, width);
      ShlIsProduct(masked, offset);
    }

    /** The six calls of or_and_advance. */
    method PackFields(t: ScalarType) returns (val: nat)
      ensures val == Pack(t)
    {
      FieldPlaces();
      MaskedFields(t);
      var offset;
      val, offset := OrAndAdvance(0, 0, t.exponent, 8, 1);
      val, offset := OrAndAdvance(val, offset, t.mantissa, 8, 0x100);
      val, offset := OrAndAdvance(val, offset, Flag(t.signed), 1, 0x1_0000);
      val, offset := OrAndAdvance(val, offset, t.bias, 32, 0x2_0000);
      val, offset := OrAndAdvance(val, offset, Flag(t.finiteValuesOnly), 1, 0x2_0000_0000_0000);
      val, offset := OrAndAdvance(val, offset, NanReprValue(t.nanRepr), 8, 0x4_0000_0000_0000);
      assert offset <= 64;
    }

    /** The id property: remember the type under its packed fields. */
    method Id(t: ScalarType) returns (val: nat)
      requires Valid()
      modifies this
      ensures Valid() && val == Pack(t) && ids == old(ids)[val := t]
    {
      val := PackFields(t);
      ids := ids[val := t];
    }

    /** from_id; not found is the ValueError. The registered type with this id, so its id is this one. */
    method FromId(id: int) returns (found: bool, t: ScalarType)
      requires Valid()
      ensures found <==> id in ids
      ensures found ==> Pack(t) == id && ids[id] == t
    {
      found := id in ids;
      t := if found then ids[id] else ScalarType(0, 0, false, 0, false, NONE);
    }
  }

  // ---------- the registry after any sequence of constructions ----------

  function Register(ids: map<int, ScalarType>, ts: seq<ScalarType>): map<int, ScalarType> {
    if ts == [] then ids
    else Register(ids, ts[..|ts| - 1])[Pack(ts[|ts| - 1]) := ts[|ts| - 1]]
  }

  /** Every key is the packing of its value, and every value was registered. */
  lemma {:induction false} KeysArePackings(ts: seq<ScalarType>, k: int)
    requires k in Register(map[], ts)
    ensures Pack(Register(map[], ts)[k]) == k && Register(map[], ts)[k] in ts
  {
    if ts != [] && k != Pack(ts[|ts| - 1]) { KeysArePackings(ts[..|ts| - 1], k); }
  }

  lemma {:induction false} RegisteredIsFound(ts: seq<ScalarType>, t: ScalarType)
    requires t in ts
    ensures Pack(t) in Register(map[], ts)
  {
    if t != ts[|ts| - 1] { RegisteredIsFound(ts[..|ts| - 1], t); }
  }

  /** from_id(t.id) == t for every registered type, exactly when no two of them share an id. */
  lemma RoundTripIffNoneShares(ts: seq<ScalarType>)
    ensures (forall t :: t in ts ==> Pack(t) in Register(map[], ts) && Register(map[], ts)[Pack(t)] == t)
       <==> forall t, u :: t in ts && u in ts && Pack(t) == Pack(u) ==> t == u
  {
    forall t | t in ts
      ensures Pack(t) in Register(map[], ts)
      ensures Pack(Register(map[], ts)[Pack(t)]) == Pack(t) && Register(map[], ts)[Pack(t)] in ts
    {
      RegisteredIsFound(ts, t);
      KeysArePackings(ts, Pack(t));
    }
  }

  lemma NoneSharesIff(ts: seq<ScalarType>)
    ensures (forall t, u :: t in ts && u in ts && Pack(t) == Pack(u) ==> t == u)
       <==> forall t, u :: t in ts && u in ts && SameFields(t, u) ==> t == u
  {
    forall t, u ensures Pack(t) == Pack(u) <==> SameFields(t, u) { SameIdIff(t, u); }
  }

  /** That is, exactly when no two of them agree in their packed fields. */
  lemma RoundTripIff(ts: seq<ScalarType>)
    ensures (forall t :: t in ts ==> Pack(t) in Register(map[], ts) && Register(map[], ts)[Pack(t)] == t)
       <==> forall t, u :: t in ts && u in ts && SameFields(t, u) ==> t == u
  {
    RoundTripIffNoneShares(ts);
    NoneSharesIff(ts);
  }

  /** In particular when all fields fit and all biases lie in one window. */
  lemma RoundTrip(ts: seq<ScalarType>, low: int, t: ScalarType)
    requires t in ts && forall u :: u in ts ==> Fits(u, low)
    ensures Pack(t) in Register(map[], ts) && Register(map[], ts)[Pack(t)] == t
  {
    forall u, v | u in ts && v in ts && SameFields(u, v) ensures u == v {
      SameIdIff(u, v);
      PackIsInjective(u, v, low);
    }
    RoundTripIff(ts);
  }
}
