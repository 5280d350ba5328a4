/** Transform vectors as three canonical CBOR integers. */
module NanoVectors {
  import opened Bytes
  import opened Options
  import opened CborValues
  import opened CborEncoding
  import opened CborParsing
  import opened CborTheorems

  const TRANSFORM_VECTOR_LENGTH: nat := 3

  datatype NanoVec3 = NanoVec3(x: i64, y: i64, z: i64)

  datatype UnitsError = ExpectedArray | WrongLength(length: nat) | ExpectedInteger(index: nat)

  datatype Outcome = Vector(vector: NanoVec3) | Rejected(error: UnitsError)

  /** `CborValue::integer`. */
  function Integer(n: i64): Value {
    if n < 0 then NegInt(n) else Uint(n)
  }

  /** `CborValue::as_int`: either integer variant when it fits in `i64`. */
  function AsInt(v: Value): Option<i64> {
    match v
    case Uint(unsigned) => if unsigned < TWO_TO_THE_63 then Some(unsigned) else None
    case NegInt(signed) => Some(signed)
    case _ => None
  }

  /** An integer is read exactly from the two ways to write it, unless it does not fit. */
  lemma {:induction false} IntegerRead(v: Value, n: i64)
    ensures AsInt(v) == Some(n) <==> (v.Uint? && v.unsigned == n) || (v.NegInt? && v.signed == n)
    ensures AsInt(v).None? <==> !v.NegInt? && (v.Uint? ==> v.unsigned >= 0x8000_0000_0000_0000)
  {
  }

  function ToCbor(v: NanoVec3): Value {
    Array([Integer(v.x), Integer(v.y), Integer(v.z)])
  }

  /** What `FromCbor` answers: the vector whose axes these are, or the first complaint. */
  ghost predicate Reads(value: Value, outcome: Outcome) {
    match outcome
    case Vector(v) =>
      && value.Array? && |value.items| == 3
      && AsInt(value.items[0]) == Some(v.x) && AsInt(value.items[1]) == Some(v.y) && AsInt(value.items[2]) == Some(v.z)
    case Rejected(ExpectedArray) => !value.Array?
    case Rejected(WrongLength(length)) => value.Array? && length == |value.items| != 3
    case Rejected(ExpectedInteger(index)) =>
      && value.Array? && index < |value.items| == 3 && AsInt(value.items[index]).None?
      && forall i :: 0 <= i < index ==> AsInt(value.items[i]).Some?
  }

  /** Every value has exactly one reading. */
  lemma {:induction false} ReadsUnique(value: Value, a: Outcome, b: Outcome)
    requires Reads(value, a) && Reads(value, b)
    ensures a == b
  {
  }

  method FromCbor(value: Value) returns (outcome: Outcome)
    ensures Reads(value, outcome)
  {
    if !value.Array? {
      return Rejected(ExpectedArray);
    }
    var axes := value.items;
    if |axes| != TRANSFORM_VECTOR_LENGTH {
      return Rejected(WrongLength(|axes|));
    }
    var decoded := new i64[3](_ => 0);
    for index := 0 to |axes|
      invariant forall i :: 0 <= i < index ==> AsInt(axes[i]) == Some(decoded[i])
    {
      var axis := AsInt(axes[index]);
      if axis.None? {
        return Rejected(ExpectedInteger(index));
      }
      decoded[index] := axis.value;
    }
    return Vector(NanoVec3(decoded[0], decoded[1], decoded[2]));
  }

  lemma {:induction false} VectorIsCanonical(u: Unicode, v: NanoVec3)
    ensures IsCanonical(u, ToCbor(v)) && NestsWithin(ToCbor(v), 1)
    ensures Reads(ToCbor(v), Vector(v))
  {
    var items := ToCbor(v).items;
    assert forall i :: 0 <= i < 3 ==> IsCanonical(u, items[i]) && NestsWithin(items[i], 0);
  }

  /** The head of an integer of either sign (section 3.1 of RFC 8949). */
  function IntegerHead(n: i64): seq<byte> {
    if n >= 0 then EncodeArgument(0, n) else EncodeArgument(1, -1 - n)
  }

  /** A vector's bytes: the head of an array of three, then x, y and z. */
  lemma {:induction false} VectorBytes(v: NanoVec3)
    ensures Encode(ToCbor(v)) == [0x83] + IntegerHead(v.x) + IntegerHead(v.y) + IntegerHead(v.z)
  {
    hide EncodeArgument;
    var items := ToCbor(v).items;
    assert items[1..][1..] == [items[2]] && items[1..][0] == items[1] && [items[2]][1..] == [];
    assert EncodeItems([items[2]]) == Encode(items[2]) + [];
    assert EncodeItems(items[1..]) == Encode(items[1]) + EncodeItems([items[2]]);
    assert EncodeItems(items) == Encode(items[0]) + EncodeItems(items[1..]);
    ThreeItems();
  }

  lemma {:induction false} ThreeItems()
    ensures EncodeArgument(4, 3) == [0x83]
  {
  }

  /** Every `i64` triple survives vector, value, bytes, value, vector. */
  lemma {:induction false} VectorRoundTrip(u: Unicode, v: NanoVec3)
    ensures Decode(u, Encode(ToCbor(v))) == Ok(ToCbor(v))
    ensures Reads(Decode(u, Encode(ToCbor(v))).value, Vector(v))
  {
    hide Encode, Decode, IsCanonical, NestsWithin, Reads, Canon, Encodable, Representable;
    var value := ToCbor(v);
    VectorIsCanonical(u, v);
    CanonicalIsEncodable(u, value);
    NestsWithinMonotone(value, 1, MAXIMUM_NESTING_DEPTH);
    ValueRoundTrip(u, value);
  }

  /** Bytes that decode to a vector are exactly the bytes that vector encodes to. */
  lemma {:induction false} VectorBytesReproduced(u: Unicode, bytes: seq<byte>, v: NanoVec3)
    requires Decode(u, bytes).Ok? && Reads(Decode(u, bytes).value, Vector(v))
    ensures Encode(ToCbor(v)) == bytes
  {
    hide Encode, Decode, NestsWithin, Canon, Validate, Representable;
    BytesAreCanonical(u, bytes);
    var items := Decode(u, bytes).value.items;
    assert IsCanonical(u, items[0]) && IsCanonical(u, items[1]) && IsCanonical(u, items[2]);
    assert items[0] == Integer(v.x) && items[1] == Integer(v.y) && items[2] == Integer(v.z);
    assert items == ToCbor(v).items;
  }
}
