/** Values of scalar objects, by the kind of their base type (ghw_read_value). */
module GhwValues {
  import opened Vectors
  import opened GhwStream
  import opened GhwTypes

  /** A double is kept as its eight bytes. */
  datatype Value = ByteValue(b: Byte) | IntValue(i: int) | FloatValue(bytes: seq<Byte>)

  function ValueAt(data: seq<Byte>, pos: nat, kind: nat): (out: Read<Value>)
    requires pos <= |data|
    ensures out.Ok? || out.Fail? ==> pos <= out.pos <= |data|
    ensures !(22 <= kind <= 23 || 25 <= kind <= 29) ==> out == Exit
  {
    if kind in {B2, E8} then
      if pos == |data| then Fail(pos) else Ok(ByteValue(data[pos]), pos + 1)
    else if kind in {I32, P32, I64, P64} then
      var r :- Sleb(data, pos, if kind in {I32, P32} then 32 else 64);
      Ok(IntValue(r.v), r.pos)
    else if kind == F64 then
      if pos + 8 <= |data| then Ok(FloatValue(data[pos..pos + 8]), pos + 8) else Fail(|data|)
    else Exit
  }

  method ReadValue(s: Stream, kind: nat) returns (out: Read<Value>)
    requires s.Valid()
    modifies s
    ensures s.Valid() && out == ValueAt(s.data, old(s.pos), kind)
    ensures (out.Ok? || out.Fail? ==> s.pos == out.pos) && (out.Exit? ==> s.pos == old(s.pos))
  {
    hide Sleb;
    if kind in {B2, E8} {
      var c := s.GetC();
      out := if c == -1 then Fail(s.pos) else Ok(ByteValue(c), s.pos);
    } else if kind in {I32, P32, I64, P64} {
      var x := ReadSleb128(s, if kind in {I32, P32} then 32 else 64);
      var r :- x;
      out := Ok(IntValue(r.v), r.pos);
    } else if kind == F64 {
      var ok, bytes := s.FRead(8);
      out := if ok then Ok(FloatValue(bytes), s.pos) else Fail(s.pos);
    } else {
      out := Exit;
    }
  }

  /** The value is one of this kind. */
  predicate ValueFits(kind: nat, v: Value) {
    match v
    case ByteValue(_) => kind in {22, 23}
    case IntValue(i) => (kind in {25, 28} && InWidth(i, 32)) || (kind in {26, 29} && InWidth(i, 64))
    case FloatValue(bytes) => kind == 27 && |bytes| == 8
  }

  function EncodeValue(v: Value): seq<Byte> {
    match v
    case ByteValue(b) => [b]
    case IntValue(i) => EncodeS(i)
    case FloatValue(bytes) => bytes
  }

  /** Every value of a kind is read back from its encoding. */
  lemma ValueIs(data: seq<Byte>, pos: nat, kind: nat, v: Value)
    requires ValueFits(kind, v) && At(data, pos, EncodeValue(v))
    ensures ValueAt(data, pos, kind) == Ok(v, pos + |EncodeValue(v)|)
  {
    hide Sleb, EncodeS;
    match v
    case ByteValue(b) => OneByte(data, pos, b);
    case IntValue(i) => SlebIs(data, pos, i, if kind in {I32, P32} then 32 else 64);
    case FloatValue(bytes) =>
  }
}
