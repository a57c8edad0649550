/** Value types, and structure layouts as lists of fields. */
module Structures {
  import opened Common
  import opened Numerals

  datatype ValueType =
    | Int8 | UInt8 | Int16 | UInt16 | Int32 | UInt32 | Int64 | UInt64
    | Float | Double | Bytes | StringAscii | StringUtf16

  /** Zero for the types whose width does not come from the type. */
  function TypeSize(t: ValueType): nat
  {
    match t
    case Int8 | UInt8 => 1
    case Int16 | UInt16 => 2
    case Int32 | UInt32 | Float => 4
    case Int64 | UInt64 | Double => 8
    case Bytes | StringAscii | StringUtf16 => 0
  }

  datatype Field = Field(offset: I64, kind: ValueType, length: U64, name: string)

  datatype Structure = Structure(id: U64, name: string, fields: seq<Field>)

  function Size(f: Field): nat
  {
    if TypeSize(f.kind) != 0 then TypeSize(f.kind) else f.length
  }

  /** One past the field, in 64-bit signed arithmetic. */
  function End(f: Field): I64
  {
    Signed((Pattern(f.offset) + Size(f)) % TWO_TO_THE_64)
  }

  function DefaultFieldName(offset: I64): (name: string)
    ensures name != ""
  {
    var distance: int := offset;
    if offset < 0 then "field_minus_" + Print(-distance, Hex) else "field_" + Print(offset, Hex)
  }

  lemma PrintTellsApart(m: nat, n: nat, prefix: string)
    requires prefix + Print(m, Hex) == prefix + Print(n, Hex)
    ensures m == n
  {
    assert Print(m, Hex) == (prefix + Print(m, Hex))[|prefix|..];
    assert Print(n, Hex) == (prefix + Print(n, Hex))[|prefix|..];
    PrintReadsBack(m, Hex);
    PrintReadsBack(n, Hex);
  }

  lemma SignTellsApart(m: nat, n: nat)
    ensures "field_minus_" + Print(m, Hex) != "field_" + Print(n, Hex)
  {
    PrintReadsBack(n, Hex);
    assert ("field_minus_" + Print(m, Hex))[6] == 'm';
    assert ("field_" + Print(n, Hex))[6] == Print(n, Hex)[0] && IsDigit(Print(n, Hex)[0], Hex);
  }

  /** Fields named for their offsets never share a name. */
  lemma DefaultNamesDiffer(a: I64, b: I64)
    requires a != b
    ensures DefaultFieldName(a) != DefaultFieldName(b)
  {
    var left: int, right: int := a, b;
    if DefaultFieldName(a) == DefaultFieldName(b) {
      if a < 0 && b < 0 {
        PrintTellsApart(-left, -right, "field_minus_");
      } else if a >= 0 && b >= 0 {
        PrintTellsApart(left, right, "field_");
      } else if a < 0 {
        SignTellsApart(-left, right);
      } else {
        SignTellsApart(-right, left);
      }
    }
  }
}
