/**
 * The field resolver of `loadPly`: `getIdx` looks a property name up in the
 * header's map, giving its index or -1 when absent, for the 14 scalar
 * fields and for `f_rest_0` .. `f_rest_44`.
 */
module Resolver {
  import opened Text
  import opened Header

  /** The scalar fields in the order the source resolves them (h_x .. h_cb). */
  const ScalarNames: seq<string> := [
    "x", "y", "z", "opacity",
    "scale_0", "scale_1", "scale_2",
    "rot_0", "rot_1", "rot_2", "rot_3",
    "f_dc_0", "f_dc_1", "f_dc_2"]

  const ScalarCount: nat := 14
  const RestCount: nat := 45

  /** `"f_rest_" + std::to_string(k)`. */
  function RestName(k: nat): string {
    "f_rest_" + Decimal(k)
  }

  /** A harmonic name is `f_rest_` followed by a decimal numeral, without leading zero, whose value is `k`. */
  lemma RestNameSpells(k: nat)
    ensures var name := RestName(k);
            |name| > 7 && name[..7] == "f_rest_" &&
            AllDigits(name[7..]) && (|name| > 8 ==> name[7] != '0') && DigitsValue(name[7..]) == k
  {
    assert RestName(k)[7..] == Decimal(k);
    DecimalRoundTrip(k);
  }

  /** The 45 harmonic lookups are for 45 different names. */
  lemma RestNamesDistinct(a: nat, b: nat)
    requires a != b
    ensures RestName(a) != RestName(b)
  {
    if RestName(a) == RestName(b) {
      assert Decimal(a) == RestName(a)[7..];
      DecimalInjective(a, b);
    }
  }

  /** No harmonic name coincides with a scalar name. */
  lemma RestNameNotScalar(k: nat)
    ensures RestName(k) !in ScalarNames
  {
    assert |RestName(k)| > 7;
  }

  /** `getIdx`: the mapped index, or -1 when the name is absent. */
  function GetIdx(props: map<string, nat>, name: string): (r: int)
    ensures r == -1 <==> name !in props
    ensures name in props ==> r == props[name]
  {
    if name in props then props[name] else -1
  }

  /** `idx_x` .. `idx_cb` and `idx_rest`. */
  datatype FieldIndices = FieldIndices(scalar: seq<int>, rest: seq<int>)

  /** Each resolved index is -1 or a field of a record with `propCounter` fields. */
  predicate ValidIndices(idx: FieldIndices, propCounter: nat) {
    |idx.scalar| == ScalarCount && |idx.rest| == RestCount &&
    (forall f :: 0 <= f < ScalarCount ==> -1 <= idx.scalar[f] < propCounter) &&
    (forall k :: 0 <= k < RestCount ==> -1 <= idx.rest[k] < propCounter)
  }

  /** The indices the resolver computes from a property map. */
  function Resolved(props: map<string, nat>): (idx: FieldIndices)
    ensures |idx.scalar| == ScalarCount && |idx.rest| == RestCount
  {
    FieldIndices(seq(ScalarCount, f requires 0 <= f < ScalarCount => GetIdx(props, ScalarNames[f])),
                 seq(RestCount, k requires 0 <= k < RestCount => GetIdx(props, RestName(k))))
  }

  /** The 14 scalar lookups and the loop over the 45 harmonic names. */
  method ResolveFields(props: map<string, nat>) returns (idx: FieldIndices)
    ensures idx == Resolved(props)
  {
    var scalar := [
      GetIdx(props, "x"), GetIdx(props, "y"), GetIdx(props, "z"), GetIdx(props, "opacity"),
      GetIdx(props, "scale_0"), GetIdx(props, "scale_1"), GetIdx(props, "scale_2"),
      GetIdx(props, "rot_0"), GetIdx(props, "rot_1"), GetIdx(props, "rot_2"), GetIdx(props, "rot_3"),
      GetIdx(props, "f_dc_0"), GetIdx(props, "f_dc_1"), GetIdx(props, "f_dc_2")];
    var rest := new int[RestCount];
    for i := 0 to RestCount
      invariant forall k :: 0 <= k < i ==> rest[k] == GetIdx(props, RestName(k))
    {
      rest[i] := GetIdx(props, "f_rest_" + Decimal(i));
    }
    idx := FieldIndices(scalar, rest[..]);
  }

  /** Every index resolved from a parsed header is -1 or below the header's counter. */
  lemma ResolvedInRange(lines: seq<string>)
    ensures ValidIndices(Resolved(HeaderOf(lines).props), HeaderOf(lines).propCounter)
  {
    PropsBelowCounter(lines);
  }

  /**
   * A field resolves to -1 exactly when the header declares no vertex
   * property of that name, and otherwise to the position of its last
   * declaration.
   */
  lemma ResolvedMeaning(lines: seq<string>, name: string)
    ensures name !in VertexProperties(lines) ==> GetIdx(HeaderOf(lines).props, name) == -1
    ensures name in VertexProperties(lines) ==> GetIdx(HeaderOf(lines).props, name) == LastIndexOf(VertexProperties(lines), name)
  {
    StateAfterMeaning(lines, HeaderLength(lines));
  }
}
