/**
 Project files: a header line and one line per record, fields escaped and separated by bars. Paths, streams,
 logging and the count of skipped lines are left out; text is a sequence of characters, and wide strings are
 taken to narrow and widen without change.
 */
module ProjectStore {
  import opened Common
  import opened Text
  import opened Numerals
  import opened Structures
  import opened ProjectText
  import opened ProjectValues

  datatype Bitness = X86 | X64

  datatype Symbol = Symbol(name: string, expression: string)

  datatype Script = Script(name: string, source: string)

  datatype Chain = Chain(moduleName: string, moduleOffset: U64, offsets: seq<I64>, moduleBase: U64)

  datatype Entry = Entry(id: U64, address: U64, kind: ValueType, frozenValue: seq<Byte>, description: string,
                         group: string, hotkey: string, frozen: bool, chain: Option<Chain>, resolved: bool)

  datatype Table = Table(pid: U32, process: string, bitness: Bitness, symbols: seq<Symbol>, scripts: seq<Script>,
                         structures: seq<Structure>, entries: seq<Entry>)

  const EMPTY := Table(0, "", X64, [], [], [], [])

  // --- Writing -------------------------------------------------------------------------------------

  /** Columns with bars between them. */
  function Columns(columns: seq<string>): string
    requires columns != []
  {
    if |columns| == 1 then columns[0] else columns[0] + "|" + Columns(columns[1..])
  }

  function Row(word: string, columns: seq<string>): string { Columns([word] + columns) }

  function PidRow(pid: U32): string { Row("pid", [Print(pid, Dec)]) }

  function ProcessRow(process: string): string { Row("process", [Escape(process)]) }

  function BitnessName(bitness: Bitness): string { if bitness.X86? then "x86" else "x64" }

  function BitnessRow(bitness: Bitness): string { Row("bitness", [BitnessName(bitness)]) }

  function SymbolRow(s: Symbol): string { Row("symbol", [Escape(s.name), Escape(s.expression)]) }

  function ScriptRow(s: Script): string { Row("script", [Escape(s.name), Escape(s.source)]) }

  function StructRow(name: string): string { Row("struct", [Escape(name)]) }

  function FieldColumns(f: Field): seq<string>
  {
    [Print(Pattern(f.offset), Hex), TypeName(f.kind), Print(f.length, Dec), Escape(f.name)]
  }

  function FieldRow(f: Field): string { Row("field", FieldColumns(f)) }

  /** Module, base and offsets: empty, zero and empty for a fixed address. */
  function ChainColumns(chain: Option<Chain>): (columns: seq<string>)
    ensures |columns| == 3
  {
    match chain
    case None => ["", Print(0, Hex), ""]
    case Some(c) => [Escape(c.moduleName), Print(c.moduleOffset, Hex), FormatOffsets(c.offsets)]
  }

  function Flag(b: bool): string { if b then "1" else "0" }

  function EntryColumns(e: Entry): seq<string>
  {
    [Print(e.id, Dec), Print(e.address, Hex), TypeName(e.kind), Flag(e.frozen),
     Escape(e.description), Escape(e.group), Escape(e.hotkey), BytesToHex(e.frozenValue)] + ChainColumns(e.chain)
  }

  function EntryRow(e: Entry): string { Row("entry", EntryColumns(e)) }

  function SymbolRows(s: seq<Symbol>): seq<string>
  {
    if s == [] then [] else SymbolRows(s[..|s| - 1]) + [SymbolRow(s[|s| - 1])]
  }

  function ScriptRows(s: seq<Script>): seq<string>
  {
    if s == [] then [] else ScriptRows(s[..|s| - 1]) + [ScriptRow(s[|s| - 1])]
  }

  function FieldRows(s: seq<Field>): seq<string>
  {
    if s == [] then [] else FieldRows(s[..|s| - 1]) + [FieldRow(s[|s| - 1])]
  }

  function StructureRows(s: seq<Structure>): seq<string>
  {
    if s == [] then []
    else
      var last := s[|s| - 1];
      StructureRows(s[..|s| - 1]) + ([StructRow(last.name)] + FieldRows(last.fields))
  }

  function EntryRows(s: seq<Entry>): seq<string>
  {
    if s == [] then [] else EntryRows(s[..|s| - 1]) + [EntryRow(s[|s| - 1])]
  }

  const HEADER := "IRETABLE 3"

  function HeadRows(t: Table): seq<string>
  {
    [HEADER, PidRow(t.pid), ProcessRow(t.process), BitnessRow(t.bitness)]
  }

  function Rows(t: Table): seq<string>
  {
    HeadRows(t) + SymbolRows(t.symbols) + ScriptRows(t.scripts) + StructureRows(t.structures) + EntryRows(t.entries)
  }

  function Save(t: Table): string { Terminated(Rows(t), '\n') }

  method AddRow(out: string, ghost rows: seq<string>, row: string) returns (text: string)
    requires out == Terminated(rows, '\n')
    ensures text == Terminated(rows + [row], '\n')
  {
    text := out + row + "\n";
    TerminatedAppend(rows, row);
  }

  lemma {:induction false} TerminatedAppend(rows: seq<string>, row: string)
    ensures Terminated(rows + [row], '\n') == Terminated(rows, '\n') + row + "\n"
    decreases rows
  {
    if rows == [] {
      assert rows + [row] == [row];
    } else {
      assert (rows + [row])[1..] == rows[1..] + [row];
      TerminatedAppend(rows[1..], row);
    }
  }

  lemma FrontStep<T>(items: seq<T>, i: nat)
    requires i < |items|
    ensures |items[..i + 1]| == i + 1 && items[..i + 1][..i] == items[..i] && items[..i + 1][i] == items[i]
  {
  }

  method WriteSymbols(out: string, ghost before: seq<string>, items: seq<Symbol>) returns (text: string)
    requires out == Terminated(before, '\n')
    ensures text == Terminated(before + SymbolRows(items), '\n')
  {
    text := out;
    assert before + [] == before;
    for i := 0 to |items|
      invariant text == Terminated(before + SymbolRows(items[..i]), '\n')
    {
      FrontStep(items, i);
      Associate(before, SymbolRows(items[..i]), [SymbolRow(items[i])]);
      text := AddRow(text, before + SymbolRows(items[..i]), SymbolRow(items[i]));
    }
    assert items[..|items|] == items;
  }

  method WriteScripts(out: string, ghost before: seq<string>, items: seq<Script>) returns (text: string)
    requires out == Terminated(before, '\n')
    ensures text == Terminated(before + ScriptRows(items), '\n')
  {
    text := out;
    assert before + [] == before;
    for i := 0 to |items|
      invariant text == Terminated(before + ScriptRows(items[..i]), '\n')
    {
      FrontStep(items, i);
      Associate(before, ScriptRows(items[..i]), [ScriptRow(items[i])]);
      text := AddRow(text, before + ScriptRows(items[..i]), ScriptRow(items[i]));
    }
    assert items[..|items|] == items;
  }

  method WriteFields(out: string, ghost before: seq<string>, items: seq<Field>) returns (text: string)
    requires out == Terminated(before, '\n')
    ensures text == Terminated(before + FieldRows(items), '\n')
  {
    text := out;
    assert before + [] == before;
    for i := 0 to |items|
      invariant text == Terminated(before + FieldRows(items[..i]), '\n')
    {
      FrontStep(items, i);
      Associate(before, FieldRows(items[..i]), [FieldRow(items[i])]);
      text := AddRow(text, before + FieldRows(items[..i]), FieldRow(items[i]));
    }
    assert items[..|items|] == items;
  }

  method WriteEntries(out: string, ghost before: seq<string>, items: seq<Entry>) returns (text: string)
    requires out == Terminated(before, '\n')
    ensures text == Terminated(before + EntryRows(items), '\n')
  {
    text := out;
    assert before + [] == before;
    for i := 0 to |items|
      invariant text == Terminated(before + EntryRows(items[..i]), '\n')
    {
      FrontStep(items, i);
      Associate(before, EntryRows(items[..i]), [EntryRow(items[i])]);
      text := AddRow(text, before + EntryRows(items[..i]), EntryRow(items[i]));
    }
    assert items[..|items|] == items;
  }

  method WriteStructures(out: string, ghost before: seq<string>, items: seq<Structure>) returns (text: string)
    requires out == Terminated(before, '\n')
    ensures text == Terminated(before + StructureRows(items), '\n')
  {
    text := out;
    assert before + [] == before;
    for i := 0 to |items|
      invariant text == Terminated(before + StructureRows(items[..i]), '\n')
    {
      FrontStep(items, i);
      ghost var rows := before + StructureRows(items[..i]);
      var head := StructRow(items[i].name);
      text := AddRow(text, rows, head);
      text := WriteFields(text, rows + [head], items[i].fields);
      Associate(rows, [head], FieldRows(items[i].fields));
      Associate(before, StructureRows(items[..i]), [head] + FieldRows(items[i].fields));
    }
    assert items[..|items|] == items;
  }

  method WriteHead(t: Table) returns (text: string)
    ensures text == Terminated(HeadRows(t), '\n')
  {
    text := AddRow("", [], HEADER);
    text := AddRow(text, [] + [HEADER], PidRow(t.pid));
    text := AddRow(text, [] + [HEADER] + [PidRow(t.pid)], ProcessRow(t.process));
    text := AddRow(text, [] + [HEADER] + [PidRow(t.pid)] + [ProcessRow(t.process)], BitnessRow(t.bitness));
    assert [] + [HEADER] + [PidRow(t.pid)] + [ProcessRow(t.process)] + [BitnessRow(t.bitness)] == HeadRows(t);
  }

  /** The whole file, in order. */
  method WriteTable(t: Table) returns (text: string)
    ensures text == Save(t)
  {
    text := WriteHead(t);
    ghost var rows := HeadRows(t);
    text := WriteSymbols(text, rows, t.symbols);
    rows := rows + SymbolRows(t.symbols);
    text := WriteScripts(text, rows, t.scripts);
    rows := rows + ScriptRows(t.scripts);
    text := WriteStructures(text, rows, t.structures);
    rows := rows + StructureRows(t.structures);
    text := WriteEntries(text, rows, t.entries);
  }

  // --- Loading -------------------------------------------------------------------------------------

  function TrimEnd(line: string): string
  {
    if line != "" && line[|line| - 1] in {'\r', '\n'} then TrimEnd(line[..|line| - 1]) else line
  }

  const BYTE_ORDER_MARK: string := [239 as char, 187 as char, 191 as char]

  function WithoutMark(line: string): string
  {
    if |line| >= 3 && line[..3] == BYTE_ORDER_MARK then line[3..] else line
  }

  predicate KnownHeader(line: string) { line in {"IRETABLE 1", "IRETABLE 2", "IRETABLE 3"} }

  /** The last three columns; all empty, or unreadable, means a fixed address. */
  function LoadChain(module_: string, base: string, offsets: string): Option<Chain>
  {
    var word := ParseUnsigned(base, Hex);
    if module_ == "" && (word.None? || word.value == 0) then None
    else
      var list := ParseOffsets(offsets);
      if word.None? || list.None? then None else Some(Chain(module_, word.value, list.value, 0))
  }

  function LoadEntry(t: Table, parts: seq<string>): Table
    requires |parts| >= 9
  {
    var id, address, kind := ParseUnsigned(parts[1], Dec), ParseUnsigned(parts[2], Hex), ParseValueType(parts[3]);
    if id.None? || address.None? || kind.None? then t
    else
      var chain := if |parts| >= 12 then LoadChain(parts[9], parts[10], parts[11]) else None;
      t.(entries := t.entries + [Entry(id.value, address.value, kind.value, ParseHexBytes(parts[8]), parts[5], parts[6],
                                       parts[7], parts[4] == "1", chain, chain.None?)])
  }

  function StructureName(id: nat, name: string): string
  {
    if name == "" then "Structure " + Print(id, Dec) else name
  }

  /** A field goes to the structure above it; one without a width, or with nothing above it, is dropped. */
  function LoadField(t: Table, parts: seq<string>): Table
    requires |parts| >= 5
  {
    var offset, kind, length := ParseUnsigned(parts[1], Hex), ParseValueType(parts[2]), ParseUnsigned(parts[3], Dec);
    if t.structures == [] || offset.None? || kind.None? || length.None? then t
    else
      var at := Signed(offset.value);
      var field := Field(at, kind.value, length.value, if parts[4] == "" then DefaultFieldName(at) else parts[4]);
      if Size(field) == 0 then t else t.(structures := WithField(t.structures, field))
  }

  function WithField(structures: seq<Structure>, field: Field): seq<Structure>
    requires structures != []
  {
    var last := structures[|structures| - 1];
    structures[..|structures| - 1] + [last.(fields := last.fields + [field])]
  }

  function NextId(structures: seq<Structure>): U64 { (|structures| + 1) % TWO_TO_THE_64 }

  function LoadParts(t: Table, parts: seq<string>): Table
    requires parts != []
  {
    if parts[0] == "pid" && |parts| >= 2 then
      match ParseUnsigned(parts[1], Dec)
      case None => t
      case Some(pid) => t.(pid := pid % 0x1_0000_0000)
    else if parts[0] == "process" && |parts| >= 2 then t.(process := parts[1])
    else if parts[0] == "bitness" && |parts| >= 2 then
      if parts[1] == "x86" then t.(bitness := X86) else if parts[1] == "x64" then t.(bitness := X64) else t
    else if parts[0] == "symbol" && |parts| >= 3 then
      if parts[1] == "" || parts[2] == "" then t else t.(symbols := t.symbols + [Symbol(parts[1], parts[2])])
    else if parts[0] == "script" && |parts| >= 3 then
      if parts[1] == "" && parts[2] == "" then t else t.(scripts := t.scripts + [Script(parts[1], parts[2])])
    else if parts[0] == "struct" && |parts| >= 2 then
      var id := NextId(t.structures);
      t.(structures := t.structures + [Structure(id, StructureName(id, parts[1]), [])])
    else if parts[0] == "field" && |parts| >= 5 then LoadField(t, parts)
    else if parts[0] == "entry" && |parts| >= 9 then LoadEntry(t, parts)
    else t
  }

  function LoadLine(t: Table, line: string): Table
  {
    var trimmed := TrimEnd(line);
    if trimmed == "" then t else LoadParts(t, SplitEscaped(trimmed))
  }

  function LoadLines(t: Table, lines: seq<string>): Table
    decreases lines
  {
    if lines == [] then t else LoadLines(LoadLine(t, lines[0]), lines[1..])
  }

  function Load(text: string): Result<Table>
  {
    var lines := Pieces(text, '\n');
    if lines == [] || !KnownHeader(TrimEnd(WithoutMark(lines[0]))) then Fail else Ok(LoadLines(EMPTY, lines[1..]))
  }

  method LoadTable(text: string) returns (loaded: Result<Table>)
    ensures loaded == Load(text)
  {
    var lines := Pieces(text, '\n');
    if lines == [] || !KnownHeader(TrimEnd(WithoutMark(lines[0]))) {
      return Fail;
    }
    var table := EMPTY;
    for i := 1 to |lines|
      invariant LoadLines(table, lines[i..]) == LoadLines(EMPTY, lines[1..])
    {
      SuffixStep(lines, i);
      var line := TrimEnd(lines[i]);
      if line != "" {
        var parts := SplitLine(line);
        table := LoadParts(table, parts);
      }
    }
    return Ok(table);
  }
}
