/** When nothing of a table is lost by saving and loading it. */
module ProjectLossless {
  import opened Common
  import opened Numerals
  import opened Text
  import opened Structures
  import opened ProjectText
  import opened ProjectStore
  import opened ProjectRoundTrip

  predicate CompleteSymbol(s: Symbol) { s.name != "" && s.expression != "" }

  predicate CompleteScript(s: Script) { s.name != "" || s.source != "" }

  predicate CompleteField(f: Field) { f.name != "" && Size(f) != 0 }

  predicate CompleteStructure(s: Structure) { s.name != "" && forall f | f in s.fields :: CompleteField(f) }

  predicate CompleteEntry(e: Entry) { e.chain.Some? ==> ValidChain(e.chain.value) }

  predicate WellFormed(t: Table)
  {
    && (forall s | s in t.symbols :: CompleteSymbol(s))
    && (forall s | s in t.scripts :: CompleteScript(s))
    && (forall s | s in t.structures :: CompleteStructure(s))
    && (forall e | e in t.entries :: CompleteEntry(e))
  }

  // A table without what is not meant to persist: structure ids, where a module sat, and the resolved flags.
  function Persistent(t: Table): Table
  {
    t.(structures := Unnumbered(t.structures), entries := Unresolved(t.entries))
  }

  function Unnumbered(s: seq<Structure>): (plain: seq<Structure>)
    ensures |plain| == |s|
  {
    if s == [] then [] else Unnumbered(s[..|s| - 1]) + [s[|s| - 1].(id := 0)]
  }

  function PlainEntry(e: Entry): Entry
  {
    var chain := match e.chain case None => None case Some(c) => Some(c.(moduleBase := 0));
    e.(chain := chain, resolved := true)
  }

  function Unresolved(s: seq<Entry>): (plain: seq<Entry>)
    ensures |plain| == |s|
  {
    if s == [] then [] else Unresolved(s[..|s| - 1]) + [PlainEntry(s[|s| - 1])]
  }

  lemma LastAndFront<T>(s: seq<T>)
    requires s != []
    ensures s == s[..|s| - 1] + [s[|s| - 1]]
    ensures forall x :: x in s <==> x in s[..|s| - 1] || x == s[|s| - 1]
  {
    assert s == s[..|s| - 1] + [s[|s| - 1]];
  }

  lemma AppendEqual<T>(a: seq<T>, x: T, b: seq<T>, y: T)
    ensures a + [x] == b + [y] <==> a == b && x == y
  {
    if a + [x] == b + [y] {
      assert |a| == |b| && a == (a + [x])[..|a|] && b == (b + [y])[..|b|];
      assert x == (a + [x])[|a|] && y == (b + [y])[|b|];
    }
  }

  lemma {:induction false} SymbolsKept(s: seq<Symbol>)
    ensures |KeptSymbols(s)| <= |s| && (KeptSymbols(s) == s <==> forall x | x in s :: CompleteSymbol(x))
  {
    if s != [] {
      var front, last := s[..|s| - 1], s[|s| - 1];
      SymbolsKept(front);
      LastAndFront(s);
      AppendEqual(KeptSymbols(front), last, front, last);
      assert |KeptSymbols(s)| == |KeptSymbols(front)| + if CompleteSymbol(last) then 1 else 0;
    }
  }

  lemma {:induction false} ScriptsKept(s: seq<Script>)
    ensures |KeptScripts(s)| <= |s| && (KeptScripts(s) == s <==> forall x | x in s :: CompleteScript(x))
  {
    if s != [] {
      var front, last := s[..|s| - 1], s[|s| - 1];
      ScriptsKept(front);
      LastAndFront(s);
      AppendEqual(KeptScripts(front), last, front, last);
      assert |KeptScripts(s)| == |KeptScripts(front)| + if CompleteScript(last) then 1 else 0;
    }
  }

  lemma {:induction false} FieldsKept(s: seq<Field>)
    ensures |KeptFields(s)| <= |s| && (KeptFields(s) == s <==> forall x | x in s :: CompleteField(x))
  {
    if s != [] {
      var front, last := s[..|s| - 1], s[|s| - 1];
      FieldsKept(front);
      LastAndFront(s);
      AppendEqual(KeptFields(front), LoadedField(last), front, last);
      assert LoadedField(last) == last <==> last.name != "" by { assert LoadedField(last).name != ""; }
      if Size(last) == 0 {
        assert |KeptFields(s)| == |KeptFields(front)|;
        assert last in s && !CompleteField(last);
      } else {
        assert KeptFields(s) == KeptFields(front) + [LoadedField(last)];
        assert KeptFields(s) == s <==> KeptFields(front) == front && last.name != "";
      }
    }
  }

  lemma StructureKept(id: U64, s: Structure)
    ensures Structure(id, StructureName(id, s.name), KeptFields(s.fields)).(id := 0) == s.(id := 0)
            <==> CompleteStructure(s)
  {
    FieldsKept(s.fields);
  }

  lemma {:induction false} StructuresKept(s: seq<Structure>)
    ensures Unnumbered(LoadedStructures(s)) == Unnumbered(s) <==> forall x | x in s :: CompleteStructure(x)
  {
    if s != [] {
      var front, last := s[..|s| - 1], s[|s| - 1];
      StructuresKept(front);
      LastAndFront(s);
      StructureKept(NextId(LoadedStructures(front)), last);
      var before, loaded := LoadedStructures(front), LoadedStructures(s);
      assert loaded[..|loaded| - 1] == before;
      AppendEqual(Unnumbered(before), loaded[|loaded| - 1].(id := 0), Unnumbered(front), last.(id := 0));
    }
  }

  lemma EntryKept(e: Entry)
    ensures PlainEntry(LoadedEntry(e)) == PlainEntry(e) <==> CompleteEntry(e)
  {
  }

  lemma {:induction false} EntriesKept(s: seq<Entry>)
    ensures |LoadedEntries(s)| == |s|
    ensures Unresolved(LoadedEntries(s)) == Unresolved(s) <==> forall x | x in s :: CompleteEntry(x)
  {
    if s != [] {
      var front, last := s[..|s| - 1], s[|s| - 1];
      EntriesKept(front);
      EntryKept(last);
      var loaded := LoadedEntries(s);
      assert loaded[..|loaded| - 1] == LoadedEntries(front);
      LastAndFront(s);
      AppendEqual(Unresolved(LoadedEntries(front)), PlainEntry(LoadedEntry(last)), Unresolved(front), PlainEntry(last));
    }
  }

  /**
   Saving and loading gives back the same table, apart from what is not meant to persist, exactly when the
   table is well formed: complete symbols, scripts that say something, named structures with named fields of
   some width, and chains that lead somewhere.
   */
  lemma LosslessExactly(t: Table)
    ensures Load(Save(t)).Ok?
    ensures Persistent(Load(Save(t)).value) == Persistent(t) <==> WellFormed(t)
  {
    LoadOfSave(t);
    SymbolsKept(t.symbols);
    ScriptsKept(t.scripts);
    StructuresKept(t.structures);
    EntriesKept(t.entries);
  }

  lemma ChainLoadsValid(moduleName: string, base: string, offsets: string)
    ensures LoadChain(moduleName, base, offsets).Some? ==> ValidChain(LoadChain(moduleName, base, offsets).value)
  {
  }

  lemma AppendKeepsAll<T>(items: seq<T>, item: T, good: T -> bool)
    requires (forall x | x in items :: good(x)) && good(item)
    ensures forall x | x in items + [item] :: good(x)
  {
  }

  lemma EntryKeepsWellFormed(t: Table, parts: seq<string>)
    requires WellFormed(t) && |parts| >= 9
    ensures WellFormed(LoadEntry(t, parts))
  {
    var t' := LoadEntry(t, parts);
    if t' != t {
      if |parts| >= 12 { ChainLoadsValid(parts[9], parts[10], parts[11]); }
      AppendKeepsAll(t.entries, t'.entries[|t.entries|], CompleteEntry);
    }
  }

  lemma FieldKeepsWellFormed(t: Table, parts: seq<string>)
    requires WellFormed(t) && |parts| >= 5
    ensures WellFormed(LoadField(t, parts))
  {
    var t' := LoadField(t, parts);
    if t' != t {
      var last := t.structures[|t.structures| - 1];
      assert CompleteStructure(last);
      var grown := t'.structures[|t.structures| - 1];
      AppendKeepsAll(last.fields, grown.fields[|last.fields|], CompleteField);
      AppendKeepsAll(t.structures[..|t.structures| - 1], grown, CompleteStructure);
    }
  }

  lemma SymbolKeepsWellFormed(t: Table, x: Symbol)
    requires WellFormed(t) && CompleteSymbol(x)
    ensures WellFormed(t.(symbols := t.symbols + [x]))
  {
  }

  lemma ScriptKeepsWellFormed(t: Table, x: Script)
    requires WellFormed(t) && CompleteScript(x)
    ensures WellFormed(t.(scripts := t.scripts + [x]))
  {
  }

  lemma StructKeepsWellFormed(t: Table, x: Structure)
    requires WellFormed(t) && CompleteStructure(x)
    ensures WellFormed(t.(structures := t.structures + [x]))
  {
  }

  /** One record at most is added, and it is complete. */
  lemma PartsKeepWellFormed(t: Table, parts: seq<string>)
    requires WellFormed(t) && parts != []
    ensures WellFormed(LoadParts(t, parts))
  {
    if parts[0] == "symbol" && |parts| >= 3 {
      if parts[1] != "" && parts[2] != "" { SymbolKeepsWellFormed(t, Symbol(parts[1], parts[2])); }
    } else if parts[0] == "script" && |parts| >= 3 {
      if parts[1] != "" || parts[2] != "" { ScriptKeepsWellFormed(t, Script(parts[1], parts[2])); }
    } else if parts[0] == "struct" && |parts| >= 2 {
      var id := NextId(t.structures);
      StructKeepsWellFormed(t, Structure(id, StructureName(id, parts[1]), []));
    } else if parts[0] == "field" && |parts| >= 5 {
      FieldKeepsWellFormed(t, parts);
    } else if parts[0] == "entry" && |parts| >= 9 {
      EntryKeepsWellFormed(t, parts);
    }
  }

  lemma LineKeepsWellFormed(t: Table, line: string)
    requires WellFormed(t)
    ensures WellFormed(LoadLine(t, line))
  {
    var trimmed := TrimEnd(line);
    if trimmed != "" { PartsKeepWellFormed(t, SplitEscaped(trimmed)); }
  }

  lemma {:induction false} LinesKeepWellFormed(t: Table, lines: seq<string>)
    requires WellFormed(t)
    ensures WellFormed(LoadLines(t, lines))
    decreases lines
  {
    if lines != [] {
      LineKeepsWellFormed(t, lines[0]);
      LinesKeepWellFormed(LoadLine(t, lines[0]), lines[1..]);
    }
  }

  /** Whatever text a table was loaded from, it is well formed, so it survives every later save and load. */
  lemma LoadedIsWellFormed(text: string)
    requires Load(text).Ok?
    ensures WellFormed(Load(text).value)
    ensures Load(Save(Load(text).value)).Ok?
    ensures Persistent(Load(Save(Load(text).value)).value) == Persistent(Load(text).value)
  {
    LinesKeepWellFormed(EMPTY, Pieces(text, '\n')[1..]);
    LosslessExactly(Load(text).value);
  }
}
