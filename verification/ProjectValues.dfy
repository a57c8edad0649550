/** The values of a project file's fields as text: chain offsets, byte strings and value types. */
module ProjectValues {
  import opened Common
  import opened Text
  import opened Numerals
  import opened Structures

  // --- Chain offsets -------------------------------------------------------------------------------

  function HexPattern(offset: I64): string { Print(Pattern(offset), Hex) }

  function Commas(offsets: seq<I64>): string
  {
    if offsets == [] then "" else "," + HexPattern(offsets[0]) + Commas(offsets[1..])
  }

  /** Each offset's unsigned bit pattern in hexadecimal, separated by commas. */
  function FormatOffsets(offsets: seq<I64>): string
  {
    if offsets == [] then "" else HexPattern(offsets[0]) + Commas(offsets[1..])
  }

  /** The library's unsigned conversion in base sixteen, when it consumes the whole field. */
  function ToHexWord(field: string): Option<U64>
  {
    var text := SkipSpace(field);
    var negative := text != "" && text[0] == '-';
    var unsigned := if text != "" && (text[0] == '-' || text[0] == '+') then text[1..] else text;
    var digits := if |unsigned| > 2 && unsigned[0] == '0' && unsigned[1] in {'x', 'X'} then unsigned[2..] else unsigned;
    if digits == "" || !AllDigits(digits, Hex) || Value(digits, Hex) >= TWO_TO_THE_64 then None
    else if negative then Some((TWO_TO_THE_64 - Value(digits, Hex)) % TWO_TO_THE_64)
    else Some(Value(digits, Hex))
  }

  /** All fields, or nothing when one of them is empty or not a number. */
  function ReadOffsets(fields: seq<string>): Option<seq<I64>>
  {
    if fields == [] then Some([])
    else match ToHexWord(fields[0])
      case None => None
      case Some(word) =>
        After([Signed(word)], ReadOffsets(fields[1..]))
  }

  function After(read: seq<I64>, rest: Option<seq<I64>>): Option<seq<I64>>
  {
    match rest
    case None => None
    case Some(more) => Some(read + more)
  }

  lemma AfterNothing(rest: Option<seq<I64>>)
    ensures After([], rest) == rest
  {
    if rest.Some? { assert [] + rest.value == rest.value; }
  }

  lemma AfterStep(read: seq<I64>, next: I64, rest: Option<seq<I64>>)
    ensures After(read, After([next], rest)) == After(read + [next], rest)
  {
    if rest.Some? { Associate(read, [next], rest.value); }
  }

  function ParseOffsets(text: string): Option<seq<I64>> { ReadOffsets(Pieces(text, ',')) }

  method WriteOffsets(offsets: seq<I64>) returns (out: string)
    ensures out == FormatOffsets(offsets)
  {
    out := "";
    assert offsets[0..] == offsets;
    for i := 0 to |offsets|
      invariant FormatOffsets(offsets) == if i == 0 then FormatOffsets(offsets[i..]) else out + Commas(offsets[i..])
      invariant i == 0 ==> out == ""
    {
      OffsetsStep(offsets, i, out);
      if i > 0 {
        out := out + ",";
      }
      out := out + HexPattern(offsets[i]);
    }
  }

  lemma OffsetsStep(offsets: seq<I64>, i: nat, out: string)
    requires i < |offsets|
    ensures FormatOffsets(offsets[i..]) == "" + HexPattern(offsets[i]) + Commas(offsets[i + 1..])
    ensures out + Commas(offsets[i..]) == out + "," + HexPattern(offsets[i]) + Commas(offsets[i + 1..])
  {
    SuffixStep(offsets, i);
    Associate(",", HexPattern(offsets[i]), Commas(offsets[i + 1..]));
    Associate(out, ",", HexPattern(offsets[i]) + Commas(offsets[i + 1..]));
    Associate(out + ",", HexPattern(offsets[i]), Commas(offsets[i + 1..]));
  }

  method ReadOffsetList(text: string) returns (offsets: Option<seq<I64>>)
    ensures offsets == ParseOffsets(text)
  {
    var fields := Pieces(text, ',');
    var read: seq<I64> := [];
    assert fields[0..] == fields;
    AfterNothing(ReadOffsets(fields));
    for i := 0 to |fields|
      invariant ReadOffsets(fields) == After(read, ReadOffsets(fields[i..]))
    {
      SuffixStep(fields, i);
      var word := if fields[i] == "" then None else ToHexWord(fields[i]);
      if word.None? {
        return None;
      }
      AfterStep(read, Signed(word.value), ReadOffsets(fields[i + 1..]));
      read := read + [Signed(word.value)];
    }
    assert read + [] == read;
    return Some(read);
  }

  /** A printed number is read back whole: it has no sign, no prefix and no white space. */
  lemma HexWordOfPrinted(u: U64)
    ensures ToHexWord(Print(u, Hex)) == Some(u) && ',' !in Print(u, Hex)
  {
    PrintReadsBack(u, Hex);
    PlainHexWord(Print(u, Hex));
  }

  lemma PlainHexWord(text: string)
    requires text != "" && AllDigits(text, Hex) && Value(text, Hex) < TWO_TO_THE_64
    ensures ToHexWord(text) == Some(Value(text, Hex)) && ',' !in text
  {
    assert IsDigit(text[0], Hex);
    assert SkipSpace(text) == text;
    if |text| > 2 { assert IsDigit(text[1], Hex); }
  }

  lemma OnePiece(text: string)
    requires ',' !in text && text != ""
    ensures Pieces(text, ',') == [text]
  {
  }

  lemma CommaPiece(first: string, rest: string)
    requires ',' !in first && first != ""
    ensures Pieces(first + (if rest == "" then "" else "," + rest), ',') == [first] + Pieces(rest, ',')
  {
    if rest == "" {
      assert first + "" == first;
      OnePiece(first);
    } else {
      assert first + ("," + rest) == first + [','] + rest;
      PieceStep(first, ',', rest);
    }
  }

  lemma CommasThenRest(offsets: seq<I64>)
    ensures Commas(offsets) == if FormatOffsets(offsets) == "" then "" else "," + FormatOffsets(offsets)
  {
    if offsets != [] {
      PrintReadsBack(Pattern(offsets[0]), Hex);
      Associate(",", HexPattern(offsets[0]), Commas(offsets[1..]));
    }
  }

  lemma FirstOffsetPiece(offsets: seq<I64>)
    requires offsets != []
    ensures Pieces(FormatOffsets(offsets), ',') == [HexPattern(offsets[0])] + Pieces(FormatOffsets(offsets[1..]), ',')
  {
    HexWordOfPrinted(Pattern(offsets[0]));
    PrintReadsBack(Pattern(offsets[0]), Hex);
    CommasThenRest(offsets[1..]);
    CommaPiece(HexPattern(offsets[0]), FormatOffsets(offsets[1..]));
  }

  /** Signed offsets survive their unsigned hexadecimal form, however many there are. */
  lemma {:induction false} OffsetsRoundTrip(offsets: seq<I64>)
    ensures ParseOffsets(FormatOffsets(offsets)) == Some(offsets)
  {
    if offsets != [] {
      FirstOffsetPiece(offsets);
      OffsetsRoundTrip(offsets[1..]);
      ReadFirstOffset(offsets[0], Pieces(FormatOffsets(offsets[1..]), ','));
      assert [offsets[0]] + offsets[1..] == offsets;
    }
  }

  lemma ReadFirstOffset(offset: I64, pieces: seq<string>)
    ensures ReadOffsets([HexPattern(offset)] + pieces) == After([offset], ReadOffsets(pieces))
  {
    HexWordOfPrinted(Pattern(offset));
    PatternsPairUp(offset, 0);
    assert ([HexPattern(offset)] + pieces)[1..] == pieces;
  }

  // --- Byte strings --------------------------------------------------------------------------------

  function UpperDigit(d: nat): (c: char)
    requires d < 16
    ensures IsDigit(c, Hex) && DigitValue(c) == d
  {
    if d < 10 then '0' + d as char else 'A' + (d - 10) as char
  }

  function BytesToHex(bytes: seq<Byte>): string
  {
    if bytes == [] then "" else [UpperDigit(bytes[0] / 16), UpperDigit(bytes[0] % 16)] + BytesToHex(bytes[1..])
  }

  function HexDigitsOf(text: string): (digits: string)
    ensures AllDigits(digits, Hex)
  {
    if text == "" then ""
    else (if IsDigit(text[0], Hex) then [text[0]] else "") + HexDigitsOf(text[1..])
  }

  function Pairs(digits: string): seq<Byte>
    requires AllDigits(digits, Hex)
  {
    if |digits| < 2 then [] else [DigitValue(digits[0]) * 16 + DigitValue(digits[1])] + Pairs(digits[2..])
  }

  /** Anything that is not a digit is ignored, and an odd digit is the low half of the first byte. */
  function ParseHexBytes(text: string): seq<Byte>
  {
    var digits := HexDigitsOf(text);
    Pairs(if |digits| % 2 != 0 then "0" + digits else digits)
  }

  lemma {:induction false} HexOfBytes(bytes: seq<Byte>)
    ensures var hex := BytesToHex(bytes);
            |hex| == 2 * |bytes| && AllDigits(hex, Hex) && HexDigitsOf(hex) == hex && Pairs(hex) == bytes
  {
    if bytes != [] {
      HexOfBytes(bytes[1..]);
      var high, low := UpperDigit(bytes[0] / 16), UpperDigit(bytes[0] % 16);
      var rest := BytesToHex(bytes[1..]);
      var hex := [high, low] + rest;
      assert BytesToHex(bytes) == hex;
      assert hex[1..] == [low] + rest && hex[1..][1..] == rest && hex[2..] == rest;
      assert HexDigitsOf(hex[1..]) == [low] + rest;
      assert [high] + ([low] + rest) == hex;
    }
  }

  lemma BytesRoundTrip(bytes: seq<Byte>)
    ensures ParseHexBytes(BytesToHex(bytes)) == bytes
  {
    HexOfBytes(bytes);
  }

  // --- Value types ---------------------------------------------------------------------------------

  const VALUE_TYPES: seq<ValueType> := [Int8, UInt8, Int16, UInt16, Int32, UInt32, Int64, UInt64, Float, Double,
                                        Bytes, StringAscii, StringUtf16]

  function TypeName(t: ValueType): string
  {
    match t
    case Int8 => "i8" case UInt8 => "u8" case Int16 => "i16" case UInt16 => "u16"
    case Int32 => "i32" case UInt32 => "u32"
    case Int64 => "i64" case UInt64 => "u64" case Float => "f32" case Double => "f64"
    case Bytes => "bytes" case StringAscii => "str" case StringUtf16 => "wstr"
  }

  function KindLetter(t: ValueType): char
  {
    match t
    case Int8 | Int16 | Int32 | Int64 => 'i'
    case UInt8 | UInt16 | UInt32 | UInt64 => 'u'
    case _ => 'f'
  }

  /** A number's type is named by a letter for its kind and its width in bits. */
  lemma TypeNamesSpell(t: ValueType)
    ensures TypeSize(t) > 0 ==> TypeName(t) == [KindLetter(t)] + Print(8 * TypeSize(t), Dec)
    ensures TypeName(Bytes) == "bytes" && TypeName(StringAscii) == "str" && TypeName(StringUtf16) == "wstr"
  {
    match TypeSize(t)
    case 0 =>
    case 1 => assert Print(8, Dec) == "8";
    case 2 => assert Print(1, Dec) == "1" && Print(16, Dec) == "16";
    case 4 => assert Print(3, Dec) == "3" && Print(32, Dec) == "32";
    case _ => assert Print(6, Dec) == "6" && Print(64, Dec) == "64";
  }

  function FindType(name: string, types: seq<ValueType>): Option<ValueType>
  {
    if types == [] then None else if name == TypeName(types[0]) then Some(types[0]) else FindType(name, types[1..])
  }

  function ParseValueType(text: string): Option<ValueType> { FindType(Lower(text), VALUE_TYPES) }

  lemma {:induction false} FindTypeFinds(t: ValueType, types: seq<ValueType>)
    requires t in types
    ensures FindType(TypeName(t), types) == Some(t)
  {
    if types[0] != t { FindTypeFinds(t, types[1..]); }
  }

  lemma TypeNameIsLower(t: ValueType)
    ensures Lower(TypeName(t)) == TypeName(t) && TypeName(t) != ""
  {
  }

  lemma TypesRoundTrip(t: ValueType)
    ensures ParseValueType(TypeName(t)) == Some(t)
  {
    TypeNameIsLower(t);
    FindTypeFinds(t, VALUE_TYPES);
  }
}
