/** Loading a saved table: exactly what comes back, for every table, and when that is the table itself. */
module ProjectRoundTrip {
  import opened Common
  import opened Text
  import opened Numerals
  import opened Structures
  import opened ProjectText
  import opened ProjectValues
  import opened ProjectStore

  // --- What comes back -----------------------------------------------------------------------------

  function KeptSymbols(s: seq<Symbol>): seq<Symbol>
  {
    if s == [] then []
    else
      var last := s[|s| - 1];
      KeptSymbols(s[..|s| - 1]) + if last.name == "" || last.expression == "" then [] else [last]
  }

  function KeptScripts(s: seq<Script>): seq<Script>
  {
    if s == [] then []
    else
      var last := s[|s| - 1];
      KeptScripts(s[..|s| - 1]) + if last.name == "" && last.source == "" then [] else [last]
  }

  function LoadedField(f: Field): Field
  {
    f.(name := if f.name == "" then DefaultFieldName(f.offset) else f.name)
  }

  function KeptFields(s: seq<Field>): seq<Field>
  {
    if s == [] then []
    else
      var last := s[|s| - 1];
      KeptFields(s[..|s| - 1]) + if Size(last) == 0 then [] else [LoadedField(last)]
  }

  /** Structures are numbered anew from one, and an unnamed one gets its number for a name. */
  function LoadedStructures(s: seq<Structure>): (loaded: seq<Structure>)
    ensures |loaded| == |s|
  {
    if s == [] then []
    else
      var before := LoadedStructures(s[..|s| - 1]);
      var last := s[|s| - 1];
      before + [Structure(NextId(before), StructureName(NextId(before), last.name), KeptFields(last.fields))]
  }

  predicate ValidChain(c: Chain) { c.moduleName != "" || c.moduleOffset != 0 }

  /** An entry without a valid chain is a fixed address and resolved; one with a chain starts out unresolved. */
  function LoadedEntry(e: Entry): Entry
  {
    if e.chain.Some? && ValidChain(e.chain.value)
    then e.(chain := Some(e.chain.value.(moduleBase := 0)), resolved := false)
    else e.(chain := None, resolved := true)
  }

  function LoadedEntries(s: seq<Entry>): seq<Entry>
  {
    if s == [] then [] else LoadedEntries(s[..|s| - 1]) + [LoadedEntry(s[|s| - 1])]
  }

  function Loaded(t: Table): Table
  {
    Table(t.pid, t.process, t.bitness, KeptSymbols(t.symbols), KeptScripts(t.scripts), LoadedStructures(t.structures),
          LoadedEntries(t.entries))
  }

  // --- One row -------------------------------------------------------------------------------------

  predicate EscapedFrom(columns: seq<string>, parts: seq<string>)
  {
    |columns| == |parts| && forall i :: 0 <= i < |columns| ==> columns[i] == Escape(parts[i])
  }

  lemma {:induction false} ColumnsJoin(columns: seq<string>, parts: seq<string>)
    requires columns != [] && EscapedFrom(columns, parts)
    ensures Columns(columns) == Join(parts)
  {
    if |columns| > 1 { ColumnsJoin(columns[1..], parts[1..]); }
  }

  lemma {:induction false} TrimOneLine(line: string)
    requires OneLine(line)
    ensures TrimEnd(line) == line
  {
  }

  /** A row splits into its word and the parts it was written from. */
  lemma RowSplits(word: string, columns: seq<string>, parts: seq<string>)
    requires word != "" && Plain(word) && EscapedFrom(columns, parts)
    ensures SplitEscaped(TrimEnd(Row(word, columns))) == [word] + parts
    ensures TrimEnd(Row(word, columns)) == Row(word, columns) && '\n' !in Row(word, columns)
  {
    PlainEscape(word);
    ColumnsJoin([word] + columns, [word] + parts);
    JoinIsOneLine([word] + parts);
    TrimOneLine(Join([word] + parts));
    SplitJoin([word] + parts);
  }

  /** A row is loaded from exactly the parts it was written from. */
  lemma RowLoads(t: Table, word: string, columns: seq<string>, parts: seq<string>)
    requires word != "" && Plain(word) && EscapedFrom(columns, parts)
    ensures LoadLine(t, Row(word, columns)) == LoadParts(t, [word] + parts) && '\n' !in Row(word, columns)
  {
    RowSplits(word, columns, parts);
  }

  predicate Unescaped(text: string) { Escape(text) == text }

  lemma DigitsUnescaped(text: string)
    requires AllDigits(text, Hex)
    ensures Unescaped(text)
  {
    forall i | 0 <= i < |text| ensures !Special(text[i]) { assert IsDigit(text[i], Hex); }
    PlainEscape(text);
  }

  lemma PrintUnescaped(n: nat, r: Radix)
    ensures Unescaped(Print(n, r))
  {
    PrintReadsBack(n, r);
    DigitsUnescaped(Print(n, r));
  }

  lemma {:induction false} CommasPlain(offsets: seq<I64>)
    ensures Plain(Commas(offsets))
  {
    if offsets != [] {
      CommasPlain(offsets[1..]);
      PrintReadsBack(Pattern(offsets[0]), Hex);
    }
  }

  lemma OffsetsUnescaped(offsets: seq<I64>)
    ensures Unescaped(FormatOffsets(offsets))
  {
    if offsets != [] {
      CommasPlain(offsets[1..]);
      PrintReadsBack(Pattern(offsets[0]), Hex);
    }
    PlainEscape(FormatOffsets(offsets));
  }

  lemma BytesUnescaped(bytes: seq<Byte>)
    ensures Unescaped(BytesToHex(bytes))
  {
    HexOfBytes(bytes);
    DigitsUnescaped(BytesToHex(bytes));
  }

  lemma TypeUnescaped(t: ValueType)
    ensures Unescaped(TypeName(t))
  {
    var name := TypeName(t);
    assert Plain(name);
    PlainEscape(name);
  }

  lemma FlagUnescaped(b: bool)
    ensures Unescaped(Flag(b))
  {
    var flag := Flag(b);
    assert Plain(flag);
    PlainEscape(flag);
  }

  lemma BitnessUnescaped(b: Bitness)
    ensures Unescaped(BitnessName(b))
  {
    var name := BitnessName(b);
    assert Plain(name);
    PlainEscape(name);
  }

  lemma PidDispatched(t: Table, text: string, pid: U32)
    requires ParseUnsigned(text, Dec) == Some(pid)
    ensures LoadParts(t, ["pid"] + [text]) == t.(pid := pid)
  {
  }

  lemma PidLoads(t: Table, pid: U32)
    ensures LoadLine(t, PidRow(pid)) == t.(pid := pid) && '\n' !in PidRow(pid)
  {
    var text := Print(pid, Dec);
    PrintUnescaped(pid, Dec);
    RowLoads(t, "pid", [text], [text]);
    ParsePrinted(pid, Dec);
    PidDispatched(t, text, pid);
  }

  lemma ProcessLoads(t: Table, process: string)
    ensures LoadLine(t, ProcessRow(process)) == t.(process := process) && '\n' !in ProcessRow(process)
  {
    RowLoads(t, "process", [Escape(process)], [process]);
  }

  lemma BitnessLoads(t: Table, bitness: Bitness)
    ensures LoadLine(t, BitnessRow(bitness)) == t.(bitness := bitness) && '\n' !in BitnessRow(bitness)
  {
    BitnessUnescaped(bitness);
    RowLoads(t, "bitness", [BitnessName(bitness)], [BitnessName(bitness)]);
  }

  lemma SymbolLoads(t: Table, s: Symbol)
    ensures LoadLine(t, SymbolRow(s))
            == t.(symbols := t.symbols + if s.name == "" || s.expression == "" then [] else [s])
    ensures '\n' !in SymbolRow(s)
  {
    RowLoads(t, "symbol", [Escape(s.name), Escape(s.expression)], [s.name, s.expression]);
    assert t.symbols + [] == t.symbols;
  }

  lemma ScriptLoads(t: Table, s: Script)
    ensures LoadLine(t, ScriptRow(s)) == t.(scripts := t.scripts + if s.name == "" && s.source == "" then [] else [s])
    ensures '\n' !in ScriptRow(s)
  {
    RowLoads(t, "script", [Escape(s.name), Escape(s.source)], [s.name, s.source]);
    assert t.scripts + [] == t.scripts;
  }

  lemma StructLoads(t: Table, name: string)
    ensures LoadLine(t, StructRow(name))
            == t.(structures := t.structures
                                + [Structure(NextId(t.structures), StructureName(NextId(t.structures), name), [])])
    ensures '\n' !in StructRow(name)
  {
    RowLoads(t, "struct", [Escape(name)], [name]);
  }

  lemma FieldColumnsEscaped(f: Field)
    ensures EscapedFrom(FieldColumns(f), FieldParts(f))
  {
    PrintUnescaped(Pattern(f.offset), Hex);
    PrintUnescaped(f.length, Dec);
    TypeUnescaped(f.kind);
  }

  function FieldParts(f: Field): seq<string>
  {
    [Print(Pattern(f.offset), Hex), TypeName(f.kind), Print(f.length, Dec), f.name]
  }

  lemma FieldPartsLoad(t: Table, f: Field)
    requires t.structures != []
    ensures LoadField(t, ["field"] + FieldParts(f))
            == if Size(f) == 0 then t else t.(structures := WithField(t.structures, LoadedField(f)))
  {
    ParsePrinted(Pattern(f.offset), Hex);
    ParsePrinted(f.length, Dec);
    TypesRoundTrip(f.kind);
    PatternsPairUp(f.offset, 0);
  }

  lemma FieldLoads(t: Table, f: Field)
    requires t.structures != []
    ensures LoadLine(t, FieldRow(f))
            == if Size(f) == 0 then t else t.(structures := WithField(t.structures, LoadedField(f)))
    ensures '\n' !in FieldRow(f)
  {
    FieldColumnsEscaped(f);
    RowLoads(t, "field", FieldColumns(f), FieldParts(f));
    FieldPartsLoad(t, f);
  }

  function ChainParts(chain: Option<Chain>): (parts: seq<string>)
    ensures |parts| == 3
  {
    match chain
    case None => ["", Print(0, Hex), ""]
    case Some(c) => [c.moduleName, Print(c.moduleOffset, Hex), FormatOffsets(c.offsets)]
  }

  lemma ChainColumnsEscaped(chain: Option<Chain>)
    ensures EscapedFrom(ChainColumns(chain), ChainParts(chain))
  {
    var base := if chain.Some? then chain.value.moduleOffset else 0;
    PrintUnescaped(base, Hex);
    if chain.Some? { OffsetsUnescaped(chain.value.offsets); }
  }

  lemma ChainLoads(chain: Option<Chain>)
    ensures var p := ChainParts(chain);
            LoadChain(p[0], p[1], p[2])
            == if chain.Some? && ValidChain(chain.value) then Some(chain.value.(moduleBase := 0)) else None
  {
    var base := if chain.Some? then chain.value.moduleOffset else 0;
    ParsePrinted(base, Hex);
    if chain.Some? { OffsetsRoundTrip(chain.value.offsets); }
  }

  function EntryParts(e: Entry): (parts: seq<string>)
    ensures |parts| == 11
  {
    [Print(e.id, Dec), Print(e.address, Hex), TypeName(e.kind), Flag(e.frozen),
     e.description, e.group, e.hotkey, BytesToHex(e.frozenValue)] + ChainParts(e.chain)
  }

  lemma EscapedFromJoin(a: seq<string>, b: seq<string>, columns: seq<string>, parts: seq<string>)
    requires EscapedFrom(a, columns) && EscapedFrom(b, parts)
    ensures EscapedFrom(a + b, columns + parts)
  {
  }

  function NumberColumns(e: Entry): seq<string>
  {
    [Print(e.id, Dec), Print(e.address, Hex), TypeName(e.kind), Flag(e.frozen)]
  }

  lemma NumberColumnsEscaped(e: Entry)
    ensures EscapedFrom(NumberColumns(e), NumberColumns(e))
  {
    PrintUnescaped(e.id, Dec);
    PrintUnescaped(e.address, Hex);
    TypeUnescaped(e.kind);
    FlagUnescaped(e.frozen);
  }

  lemma TextColumnsEscaped(e: Entry)
    ensures EscapedFrom([Escape(e.description), Escape(e.group), Escape(e.hotkey), BytesToHex(e.frozenValue)],
                        [e.description, e.group, e.hotkey, BytesToHex(e.frozenValue)])
  {
    BytesUnescaped(e.frozenValue);
  }

  lemma EntryColumnsEscaped(e: Entry)
    ensures EscapedFrom(EntryColumns(e), EntryParts(e))
  {
    var columns := [Escape(e.description), Escape(e.group), Escape(e.hotkey), BytesToHex(e.frozenValue)];
    var parts := [e.description, e.group, e.hotkey, BytesToHex(e.frozenValue)];
    NumberColumnsEscaped(e);
    TextColumnsEscaped(e);
    ChainColumnsEscaped(e.chain);
    EscapedFromJoin(NumberColumns(e), columns, NumberColumns(e), parts);
    EscapedFromJoin(NumberColumns(e) + columns, ChainColumns(e.chain), NumberColumns(e) + parts, ChainParts(e.chain));
    assert EntryColumns(e) == NumberColumns(e) + columns + ChainColumns(e.chain);
    assert EntryParts(e) == NumberColumns(e) + parts + ChainParts(e.chain);
  }

  lemma EntryPartsLoad(t: Table, e: Entry)
    ensures LoadEntry(t, ["entry"] + EntryParts(e)) == t.(entries := t.entries + [LoadedEntry(e)])
  {
    var parts := ["entry"] + EntryParts(e);
    var chain := ChainParts(e.chain);
    assert parts[9] == chain[0] && parts[10] == chain[1] && parts[11] == chain[2];
    ParsePrinted(e.id, Dec);
    ParsePrinted(e.address, Hex);
    TypesRoundTrip(e.kind);
    BytesRoundTrip(e.frozenValue);
    ChainLoads(e.chain);
  }

  lemma EntryDispatched(t: Table, parts: seq<string>)
    requires |parts| >= 8
    ensures LoadParts(t, ["entry"] + parts) == LoadEntry(t, ["entry"] + parts)
  {
  }

  lemma EntryLoads(t: Table, e: Entry)
    ensures LoadLine(t, EntryRow(e)) == t.(entries := t.entries + [LoadedEntry(e)])
    ensures '\n' !in EntryRow(e)
  {
    EntryColumnsEscaped(e);
    RowLoads(t, "entry", EntryColumns(e), EntryParts(e));
    EntryPartsLoad(t, e);
    EntryDispatched(t, EntryParts(e));
  }

  // --- The whole file ------------------------------------------------------------------------------

  /** What a symbol's line says, column by column, whatever characters the texts hold. */
  lemma SymbolLineSays(s: Symbol)
    ensures SplitEscaped(TrimEnd(SymbolRow(s))) == ["symbol"] + [s.name, s.expression]
  {
    RowSplits("symbol", [Escape(s.name), Escape(s.expression)], [s.name, s.expression]);
  }

  lemma HeadLinesSay(pid: U32, process: string)
    ensures SplitEscaped(TrimEnd(PidRow(pid))) == ["pid"] + [Print(pid, Dec)]
    ensures SplitEscaped(TrimEnd(ProcessRow(process))) == ["process"] + [process]
  {
    PrintUnescaped(pid, Dec);
    RowSplits("pid", [Print(pid, Dec)], [Print(pid, Dec)]);
    RowSplits("process", [Escape(process)], [process]);
  }

  lemma BitnessLineSays(bitness: Bitness)
    ensures SplitEscaped(TrimEnd(BitnessRow(bitness))) == ["bitness"] + [if bitness.X86? then "x86" else "x64"]
  {
    BitnessUnescaped(bitness);
    RowSplits("bitness", [BitnessName(bitness)], [BitnessName(bitness)]);
  }

  lemma ScriptLineSays(s: Script)
    ensures SplitEscaped(TrimEnd(ScriptRow(s))) == ["script"] + [s.name, s.source]
  {
    RowSplits("script", [Escape(s.name), Escape(s.source)], [s.name, s.source]);
  }

  lemma FieldLineSays(f: Field)
    ensures SplitEscaped(TrimEnd(FieldRow(f))) == ["field"] + FieldParts(f)
  {
    FieldColumnsEscaped(f);
    RowSplits("field", FieldColumns(f), FieldParts(f));
  }

  lemma EntryLineSays(e: Entry)
    ensures SplitEscaped(TrimEnd(EntryRow(e))) == ["entry"] + EntryParts(e)
    ensures EntryParts(e)[3] == if e.frozen then "1" else "0"
  {
    EntryColumnsEscaped(e);
    RowSplits("entry", EntryColumns(e), EntryParts(e));
  }

  /** A record of a type this version does not know is passed over. */
  lemma UnknownIsIgnored(t: Table, parts: seq<string>)
    requires parts != []
    requires parts[0] !in {"pid", "process", "bitness", "symbol", "script", "struct", "field", "entry"}
    ensures LoadParts(t, parts) == t
  {
  }

  /** A file of any of the three versions is read line by line; any other first line refuses it. */
  lemma HeaderDecides(header: string, body: string)
    requires '\n' !in header && TrimEnd(header) == header && WithoutMark(header) == header
    ensures Load(header + ['\n'] + body)
            == if header in {"IRETABLE 1", "IRETABLE 2", "IRETABLE 3"}
               then Ok(LoadLines(EMPTY, Pieces(body, '\n'))) else Fail
  {
    PieceStep(header, '\n', body);
    var rest := Pieces(body, '\n');
    assert ([header] + rest)[1..] == rest;
  }

  predicate OneLineEach(rows: seq<string>)
  {
    forall row | row in rows :: '\n' !in row
  }

  lemma {:induction false} LoadLinesJoin(t: Table, a: seq<string>, b: seq<string>)
    ensures LoadLines(t, a + b) == LoadLines(LoadLines(t, a), b)
    decreases a
  {
    if a == [] {
      assert a + b == b;
    } else {
      assert (a + b)[1..] == a[1..] + b;
      LoadLinesJoin(LoadLine(t, a[0]), a[1..], b);
    }
  }

  lemma LoadLinesAppend(t: Table, rows: seq<string>, row: string)
    ensures LoadLines(t, rows + [row]) == LoadLine(LoadLines(t, rows), row)
  {
    LoadLinesJoin(t, rows, [row]);
    assert LoadLines(LoadLine(LoadLines(t, rows), row), [row][1..]) == LoadLine(LoadLines(t, rows), row);
  }

  lemma {:induction false} SymbolsLoad(t: Table, s: seq<Symbol>)
    ensures LoadLines(t, SymbolRows(s)) == t.(symbols := t.symbols + KeptSymbols(s)) && OneLineEach(SymbolRows(s))
  {
    if s == [] {
      assert t.symbols + [] == t.symbols;
    } else {
      var front, last := s[..|s| - 1], s[|s| - 1];
      SymbolsLoad(t, front);
      var was := t.(symbols := t.symbols + KeptSymbols(front));
      LoadLinesAppend(t, SymbolRows(front), SymbolRow(last));
      SymbolLoads(was, last);
      Associate(t.symbols, KeptSymbols(front), if last.name == "" || last.expression == "" then [] else [last]);
    }
  }

  lemma {:induction false} ScriptsLoad(t: Table, s: seq<Script>)
    ensures LoadLines(t, ScriptRows(s)) == t.(scripts := t.scripts + KeptScripts(s)) && OneLineEach(ScriptRows(s))
  {
    if s == [] {
      assert t.scripts + [] == t.scripts;
    } else {
      var front, last := s[..|s| - 1], s[|s| - 1];
      ScriptsLoad(t, front);
      var was := t.(scripts := t.scripts + KeptScripts(front));
      LoadLinesAppend(t, ScriptRows(front), ScriptRow(last));
      ScriptLoads(was, last);
      Associate(t.scripts, KeptScripts(front), if last.name == "" && last.source == "" then [] else [last]);
    }
  }

  lemma {:induction false} EntriesLoad(t: Table, s: seq<Entry>)
    ensures LoadLines(t, EntryRows(s)) == t.(entries := t.entries + LoadedEntries(s)) && OneLineEach(EntryRows(s))
  {
    if s == [] {
      assert t.entries + [] == t.entries;
    } else {
      var front, last := s[..|s| - 1], s[|s| - 1];
      EntriesLoad(t, front);
      var was := t.(entries := t.entries + LoadedEntries(front));
      LoadLinesAppend(t, EntryRows(front), EntryRow(last));
      EntryLoads(was, last);
      Associate(t.entries, LoadedEntries(front), [LoadedEntry(last)]);
    }
  }

  lemma FieldKept(above: seq<Structure>, current: Structure, front: seq<Field>, last: Field, s: seq<Field>)
    requires s == front + [last]
    ensures above + [current.(fields := KeptFields(s))]
            == if Size(last) == 0 then above + [current.(fields := KeptFields(front))]
               else WithField(above + [current.(fields := KeptFields(front))], LoadedField(last))
  {
    assert s[..|s| - 1] == front;
    assert KeptFields(front) + [] == KeptFields(front);
    var was := above + [current.(fields := KeptFields(front))];
    assert was[..|was| - 1] == above && was[|was| - 1] == current.(fields := KeptFields(front));
  }

  /** Fields land in the structure above them. */
  lemma {:induction false} FieldsLoad(t: Table, s: seq<Field>)
    requires t.structures != [] && t.structures[|t.structures| - 1].fields == []
    ensures var last := t.structures[|t.structures| - 1];
            LoadLines(t, FieldRows(s))
            == t.(structures := t.structures[..|t.structures| - 1] + [last.(fields := KeptFields(s))])
    ensures OneLineEach(FieldRows(s))
  {
    var above, current := t.structures[..|t.structures| - 1], t.structures[|t.structures| - 1];
    if s == [] {
      assert current.(fields := KeptFields(s)) == current;
      assert above + [current] == t.structures;
    } else {
      var front, last := s[..|s| - 1], s[|s| - 1];
      FieldsLoad(t, front);
      var was := t.(structures := above + [current.(fields := KeptFields(front))]);
      LoadLinesAppend(t, FieldRows(front), FieldRow(last));
      FieldLoads(was, last);
      FieldKept(above, current, front, last, s);
    }
  }

  lemma StructureLoads(t: Table, s: Structure)
    ensures LoadLines(t, [StructRow(s.name)] + FieldRows(s.fields))
            == var id := NextId(t.structures);
               t.(structures := t.structures + [Structure(id, StructureName(id, s.name), KeptFields(s.fields))])
    ensures OneLineEach([StructRow(s.name)] + FieldRows(s.fields))
  {
    StructLoads(t, s.name);
    var begun := LoadLine(t, StructRow(s.name));
    FieldsLoad(begun, s.fields);
    assert ([StructRow(s.name)] + FieldRows(s.fields))[1..] == FieldRows(s.fields);
    assert begun.structures[..|t.structures|] == t.structures;
  }

  lemma {:induction false} StructuresLoad(t: Table, s: seq<Structure>)
    requires t.structures == []
    ensures LoadLines(t, StructureRows(s)) == t.(structures := LoadedStructures(s)) && OneLineEach(StructureRows(s))
  {
    if s != [] {
      var front, last := s[..|s| - 1], s[|s| - 1];
      StructuresLoad(t, front);
      LoadLinesJoin(t, StructureRows(front), [StructRow(last.name)] + FieldRows(last.fields));
      StructureLoads(t.(structures := LoadedStructures(front)), last);
    }
  }

  lemma HeadLoads(t: Table)
    ensures OneLineEach(HeadRows(t)[1..])
    ensures LoadLines(EMPTY, HeadRows(t)[1..]) == EMPTY.(pid := t.pid, process := t.process, bitness := t.bitness)
  {
    var pid, process, bitness := PidRow(t.pid), ProcessRow(t.process), BitnessRow(t.bitness);
    PidLoads(EMPTY, t.pid);
    ProcessLoads(EMPTY.(pid := t.pid), t.process);
    BitnessLoads(EMPTY.(pid := t.pid, process := t.process), t.bitness);
    assert HeadRows(t)[1..] == [] + [pid] + [process] + [bitness];
    LoadLinesAppend(EMPTY, [], pid);
    LoadLinesAppend(EMPTY, [] + [pid], process);
    LoadLinesAppend(EMPTY, [] + [pid] + [process], bitness);
  }

  lemma HeaderAccepted()
    ensures KnownHeader(TrimEnd(WithoutMark(HEADER))) && '\n' !in HEADER
  {
    assert OneLine(HEADER);
    assert WithoutMark(HEADER) == HEADER by { assert HEADER[..3][0] == 'I' && BYTE_ORDER_MARK[0] == 239 as char; }
    TrimOneLine(HEADER);
  }

  lemma BodyLoads(t: Table)
    ensures var started := EMPTY.(pid := t.pid, process := t.process, bitness := t.bitness);
            LoadLines(started, SymbolRows(t.symbols) + ScriptRows(t.scripts)
                               + StructureRows(t.structures) + EntryRows(t.entries))
            == Loaded(t)
  {
    var symbols, scripts, structures := SymbolRows(t.symbols), ScriptRows(t.scripts), StructureRows(t.structures);
    var started := EMPTY.(pid := t.pid, process := t.process, bitness := t.bitness);
    LoadLinesJoin(started, symbols, scripts);
    LoadLinesJoin(started, symbols + scripts, structures);
    LoadLinesJoin(started, symbols + scripts + structures, EntryRows(t.entries));
    SymbolsLoad(started, t.symbols);
    var withSymbols := started.(symbols := KeptSymbols(t.symbols));
    assert started.symbols + KeptSymbols(t.symbols) == KeptSymbols(t.symbols);
    ScriptsLoad(withSymbols, t.scripts);
    var withScripts := withSymbols.(scripts := KeptScripts(t.scripts));
    assert withSymbols.scripts + KeptScripts(t.scripts) == KeptScripts(t.scripts);
    StructuresLoad(withScripts, t.structures);
    var withStructures := withScripts.(structures := LoadedStructures(t.structures));
    EntriesLoad(withStructures, t.entries);
    assert withStructures.entries + LoadedEntries(t.entries) == LoadedEntries(t.entries);
  }

  lemma BodyIsOneLineEach(t: Table)
    ensures OneLineEach(SymbolRows(t.symbols) + ScriptRows(t.scripts)
                        + StructureRows(t.structures) + EntryRows(t.entries))
  {
    SymbolsLoad(EMPTY, t.symbols);
    ScriptsLoad(EMPTY, t.scripts);
    StructuresLoad(EMPTY, t.structures);
    EntriesLoad(EMPTY, t.entries);
  }

  lemma LoadAfterHeader(lines: seq<string>)
    requires lines != [] && KnownHeader(TrimEnd(WithoutMark(lines[0]))) && OneLineEach(lines)
    ensures Load(Terminated(lines, '\n')) == Ok(LoadLines(EMPTY, lines[1..]))
  {
    PiecesOfTerminated(lines, '\n');
  }

  lemma HeadIsHeader(t: Table)
    ensures HeadRows(t) == [HEADER] + HeadRows(t)[1..]
  {
  }

  lemma Regroup(first: string, head: seq<string>, a: seq<string>, b: seq<string>, c: seq<string>, d: seq<string>)
    ensures ([first] + head) + a + b + c + d == [first] + (head + (a + b + c + d))
  {
  }

  /** Loading a saved table succeeds and gives back exactly its loaded form, for every table. */
  lemma LoadOfSave(t: Table)
    ensures Load(Save(t)) == Ok(Loaded(t))
  {
    var head := HeadRows(t)[1..];
    var body := SymbolRows(t.symbols) + ScriptRows(t.scripts) + StructureRows(t.structures) + EntryRows(t.entries);
    var rows := Rows(t);
    HeadIsHeader(t);
    Regroup(HEADER, head, SymbolRows(t.symbols), ScriptRows(t.scripts), StructureRows(t.structures),
            EntryRows(t.entries));
    assert rows[1..] == head + body;
    HeadLoads(t);
    HeaderAccepted();
    BodyIsOneLineEach(t);
    LoadAfterHeader(rows);
    LoadLinesJoin(EMPTY, head, body);
    BodyLoads(t);
  }
}
