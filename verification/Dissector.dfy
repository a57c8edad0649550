/**
 The list of structures and its edits, and the guess that tiles an object with fields. What a float or a double
 looks like, and which numbers are addresses, are functions the guess is given.
 */
module Dissector {
  import opened Common
  import opened Numerals
  import opened Structures
  import opened StructureLayout

  const DEFAULT_SIZE := 0x400
  const MAX_SIZE := 0x4000

  // --- The guess -----------------------------------------------------------------------------------

  datatype Looks = Looks(double: seq<Byte> -> bool, float: seq<Byte> -> bool, address: nat -> bool)

  predicate AllZero(bytes: seq<Byte>) { forall i | 0 <= i < |bytes| :: bytes[i] == 0 }

  /** Every sample passes or is zero, and not all are zero. */
  predicate EverySampleOrZero(samples: seq<seq<Byte>>, test: seq<Byte> -> bool)
  {
    (forall s | s in samples :: AllZero(s) || test(s)) && exists s | s in samples :: !AllZero(s)
  }

  predicate PointerLike(samples: seq<seq<Byte>>, looks: Looks)
  {
    && (forall s | s in samples :: LittleEndian(s) == 0 || looks.address(LittleEndian(s)))
    && exists s | s in samples :: LittleEndian(s) != 0
  }

  function Samples(windows: seq<seq<Byte>>, offset: nat, width: nat): seq<seq<Byte>>
    requires forall w :: w in windows ==> offset + width <= |w|
  {
    seq(|windows|, i requires 0 <= i < |windows| => windows[i][offset..offset + width])
  }

  /** The type guessed for the slot at an offset. */
  function SlotType(windows: seq<seq<Byte>>, pointerWidth: nat, looks: Looks, offset: nat, size: nat): (kind: ValueType)
    requires offset + 4 <= size && forall w :: w in windows ==> |w| == size
    ensures SlotFits(kind, offset, size)
  {
    var wide := offset % 8 == 0 && offset + 8 <= size;
    if wide && pointerWidth == 8 && PointerLike(Samples(windows, offset, 8), looks) then UInt64
    else if wide && EverySampleOrZero(Samples(windows, offset, 8), looks.double) then Double
    else if pointerWidth == 4 && PointerLike(Samples(windows, offset, 4), looks) then UInt32
    else if EverySampleOrZero(Samples(windows, offset, 4), looks.float) then Float
    else Int32
  }

  /** Over the slot every sample holds an address or zero, and some sample is not zero. */
  predicate AllAddresses(windows: seq<seq<Byte>>, offset: nat, width: nat, looks: Looks)
    requires forall w :: w in windows ==> offset + width <= |w|
  {
    && (forall w | w in windows :: var v := LittleEndian(w[offset..offset + width]); v == 0 || looks.address(v))
    && exists w | w in windows :: LittleEndian(w[offset..offset + width]) != 0
  }

  /** Over the slot every sample passes the test or is zero, and some sample is not zero. */
  predicate AllPass(windows: seq<seq<Byte>>, offset: nat, width: nat, test: seq<Byte> -> bool)
    requires forall w :: w in windows ==> offset + width <= |w|
  {
    && (forall w | w in windows :: var b := w[offset..offset + width]; AllZero(b) || test(b))
    && exists w | w in windows :: !AllZero(w[offset..offset + width])
  }

  lemma SamplesSay(windows: seq<seq<Byte>>, offset: nat, width: nat, looks: Looks, test: seq<Byte> -> bool)
    requires forall w :: w in windows ==> offset + width <= |w|
    ensures PointerLike(Samples(windows, offset, width), looks) <==> AllAddresses(windows, offset, width, looks)
    ensures EverySampleOrZero(Samples(windows, offset, width), test) <==> AllPass(windows, offset, width, test)
  {
    var samples := Samples(windows, offset, width);
    forall w | w in windows ensures w[offset..offset + width] in samples {
      var i :| 0 <= i < |windows| && windows[i] == w;
      assert samples[i] == w[offset..offset + width];
    }
    forall b | b in samples ensures exists w :: w in windows && b == w[offset..offset + width] {
      var i :| 0 <= i < |samples| && samples[i] == b;
      assert windows[i] in windows;
    }
  }

  /**
   Which type each slot is guessed to be, from the samples' bytes: an aligned pair of words first as a 64-bit pointer,
   then as a double; one word as a 32-bit pointer, then as a float; and an integer when nothing else fits.
   */
  lemma SlotTypeExactly(windows: seq<seq<Byte>>, pointerWidth: nat, looks: Looks, offset: nat, size: nat)
    requires offset + 4 <= size && forall w :: w in windows ==> |w| == size
    ensures var kind := SlotType(windows, pointerWidth, looks, offset, size);
            var wide := offset % 8 == 0 && offset + 8 <= size;
            var pointer8 := wide && pointerWidth == 8 && AllAddresses(windows, offset, 8, looks);
            var double := wide && AllPass(windows, offset, 8, looks.double);
            var pointer4 := pointerWidth == 4 && AllAddresses(windows, offset, 4, looks);
            var float := AllPass(windows, offset, 4, looks.float);
            && (kind.UInt64? <==> pointer8)
            && (kind.Double? <==> double && !pointer8)
            && (kind.UInt32? <==> pointer4 && !double)
            && (kind.Float? <==> float && !pointer4 && !double && !pointer8)
            && (kind.Int32? <==> !pointer8 && !double && !pointer4 && !float)
  {
    SamplesSay(windows, offset, 4, looks, looks.float);
    if offset + 8 <= size { SamplesSay(windows, offset, 8, looks, looks.double); }
  }

  function FieldAt(offset: nat, kind: ValueType): Field
    requires offset <= MAX_SIZE
  {
    Field(offset, kind, 0, DefaultFieldName(offset))
  }

  /** Four- and eight-byte fields end to end over [from, size), the wide ones aligned. */
  predicate Tiles(fields: seq<Field>, from: nat, size: nat)
  {
    if fields == [] then from == size
    else
      && fields[0].offset == from && Size(fields[0]) in {4, 8} && (Size(fields[0]) == 8 ==> from % 8 == 0)
      && fields[0].name != "" && Tiles(fields[1..], from + Size(fields[0]), size)
  }

  lemma {:induction false} TilesAppend(fields: seq<Field>, from: nat, offset: nat, f: Field)
    requires Tiles(fields, from, offset) && f.offset == offset && Size(f) in {4, 8} && f.name != ""
    requires Size(f) == 8 ==> offset % 8 == 0
    ensures Tiles(fields + [f], from, offset + Size(f))
    decreases fields
  {
    if fields == [] {
      assert (fields + [f])[1..] == [];
    } else {
      TilesAppend(fields[1..], from + Size(fields[0]), offset, f);
      assert (fields + [f])[1..] == fields[1..] + [f];
    }
  }

  /** A tiling is a sound layout, which replaces the old one as it is. */
  lemma {:induction false} TilingIsValid(fields: seq<Field>, from: nat, size: nat)
    requires Tiles(fields, from, size) && size <= MAX_SIZE
    ensures Valid(fields) && from <= size
    ensures forall i :: 0 <= i < |fields| ==> from <= fields[i].offset && fields[i].offset + Size(fields[i]) <= size
  {
    if fields != [] {
      TilingIsValid(fields[1..], from + Size(fields[0]), size);
      assert fields == [fields[0]] + fields[1..];
    }
  }

  lemma ValidIsAccepted(fields: seq<Field>)
    requires Valid(fields)
    ensures AllFields(fields) == Some(fields)
  {
    SortOfSorted(fields);
    forall f | f in fields ensures Fits(f) {
      var i :| 0 <= i < |fields| && fields[i] == f;
      assert Solid(fields[i]);
    }
    NeighboursDecide(fields);
    assert NamedAll(fields) == fields;
  }

  /** Every byte of the tiled range belongs to exactly one field. */
  lemma {:induction false} TilingCovers(fields: seq<Field>, from: nat, size: nat, x: nat)
    requires Tiles(fields, from, size) && from <= x < size
    ensures exists i :: 0 <= i < |fields| && Covers(fields[i], x)
  {
    assert fields != [];
    if x < from + Size(fields[0]) {
      assert Covers(fields[0], x);
    } else {
      TilingCovers(fields[1..], from + Size(fields[0]), size, x);
      var i :| 0 <= i < |fields[1..]| && Covers(fields[1..][i], x);
      assert Covers(fields[i + 1], x);
    }
  }

  predicate Covers(f: Field, x: int) { f.offset <= x < f.offset + Size(f) }

  /** The slot types of samples that were read in full. */
  function SlotTypes(windows: seq<seq<Byte>>, pointerWidth: nat, looks: Looks, size: nat): (kinds: nat -> ValueType)
    requires forall w :: w in windows ==> |w| == size
    ensures SlotsFit(kinds, size)
    ensures forall offset: nat :: offset + 4 <= size ==>
              kinds(offset) == SlotType(windows, pointerWidth, looks, offset, size)
  {
    (offset: nat) => if offset + 4 <= size then SlotType(windows, pointerWidth, looks, offset, size) else Int32
  }

  /** A wide type only at an aligned offset with room for it. */
  predicate SlotFits(kind: ValueType, offset: nat, size: nat)
  {
    TypeSize(kind) == 4 || (TypeSize(kind) == 8 && offset % 8 == 0 && offset + 8 <= size)
  }

  ghost predicate SlotsFit(kinds: nat -> ValueType, size: nat)
  {
    forall offset: nat :: offset + 4 <= size ==> SlotFits(kinds(offset), offset, size)
  }

  /** The fields guessed from an offset on. */
  function Guessed(kinds: nat -> ValueType, offset: nat, size: nat): seq<Field>
    requires size <= MAX_SIZE && SlotsFit(kinds, size)
    decreases size - offset
  {
    if offset + 4 > size then []
    else
      var field := FieldAt(offset, kinds(offset));
      [field] + Guessed(kinds, offset + Size(field), size)
  }

  lemma {:induction false} GuessTiles(kinds: nat -> ValueType, offset: nat, size: nat)
    requires size <= MAX_SIZE && SlotsFit(kinds, size) && offset <= size && (size - offset) % 4 == 0
    ensures Tiles(Guessed(kinds, offset, size), offset, size)
    decreases size - offset
  {
    if offset + 4 <= size {
      assert SlotFits(kinds(offset), offset, size);
      GuessTiles(kinds, offset + TypeSize(kinds(offset)), size);
    }
  }

  /** Every guessed field has the type of its own slot, a width from that type and a name from its offset. */
  lemma {:induction false} GuessedFieldsExactly(kinds: nat -> ValueType, offset: nat, size: nat)
    requires size <= MAX_SIZE && SlotsFit(kinds, size)
    ensures forall f :: f in Guessed(kinds, offset, size) ==>
              f.offset >= 0 && f == Field(f.offset, kinds(f.offset), 0, DefaultFieldName(f.offset))
    decreases size - offset
  {
    if offset + 4 <= size {
      assert SlotFits(kinds(offset), offset, size);
      GuessedFieldsExactly(kinds, offset + TypeSize(kinds(offset)), size);
    }
  }

  /** The rest of the guess, by where it starts. */
  ghost function GuessedFrom(kinds: nat -> ValueType, size: nat): (rest: nat -> seq<Field>)
    requires size <= MAX_SIZE && SlotsFit(kinds, size)
    ensures forall offset: nat :: rest(offset) == Guessed(kinds, offset, size)
  {
    (offset: nat) => if size <= MAX_SIZE && SlotsFit(kinds, size) then Guessed(kinds, offset, size) else []
  }

  lemma GuessStep(kinds: nat -> ValueType, fields: seq<Field>, offset: nat, size: nat, field: Field)
    requires size <= MAX_SIZE && SlotsFit(kinds, size) && offset + 4 <= size && field == FieldAt(offset, kinds(offset))
    ensures Size(field) >= 4
    ensures var rest := GuessedFrom(kinds, size);
            fields + [field] + rest(offset + Size(field)) == fields + rest(offset)
  {
    assert SlotFits(kinds(offset), offset, size);
    Associate(fields, [field], Guessed(kinds, offset + Size(field), size));
  }

  method GuessFields(kinds: nat -> ValueType, size: nat) returns (fields: seq<Field>)
    requires size <= MAX_SIZE && SlotsFit(kinds, size)
    ensures fields == Guessed(kinds, 0, size)
  {
    fields := [];
    ghost var rest := GuessedFrom(kinds, size);
    var offset: nat := 0;
    while offset + 4 <= size
      invariant fields + rest(offset) == rest(0)
      decreases size - offset
    {
      var field := FieldAt(offset, kinds(offset));
      GuessStep(kinds, fields, offset, size, field);
      fields := fields + [field];
      offset := offset + Size(field);
    }
  }

  // --- The list of structures ----------------------------------------------------------------------

  // windows: what the reads of the sample addresses returned.
  datatype Edit =
    | Add(name: string)
    | Remove(id: U64)
    | Rename(id: U64, name: string)
    | SetField(id: U64, field: Field)
    | RemoveField(id: U64, offset: I64)
    | SetFields(id: U64, fields: seq<Field>)
    | Guess(id: U64, windows: seq<seq<Byte>>, pointerWidth: nat, looks: Looks, size: nat)
    | ForgetAll

  datatype State = State(structures: seq<Structure>, nextId: U64)

  function Index(structures: seq<Structure>, id: U64): (at: Option<nat>)
    ensures at.Some? ==> at.value < |structures| && structures[at.value].id == id
    ensures at.None? ==> forall s :: s in structures ==> s.id != id
  {
    if structures == [] then None
    else if structures[0].id == id then Some(0)
    else match Index(structures[1..], id)
      case None => None
      case Some(i) => Some(i + 1)
  }

  function WithoutId(structures: seq<Structure>, id: U64): (rest: seq<Structure>)
    ensures forall s :: s in rest <==> s in structures && s.id != id
  {
    if structures == [] then []
    else if structures[0].id == id then WithoutId(structures[1..], id)
    else [structures[0]] + WithoutId(structures[1..], id)
  }

  /** The layout an edit wants for the structure it names, if it is accepted. */
  function NewFields(s: Structure, e: Edit): Option<seq<Field>>
  {
    match e
    case SetField(_, field) => WithField(s.fields, field)
    case RemoveField(_, offset) => RemovedField(s.fields, offset)
    case SetFields(_, fields) => AllFields(fields)
    case Guess(_, windows, pointerWidth, looks, size) => GuessedLayout(windows, pointerWidth, looks, size)
    case _ => None
  }

  function GuessSize(size: nat): nat
  {
    var wanted := if size == 0 then DEFAULT_SIZE else size;
    wanted - wanted % 4
  }

  function FullWindows(windows: seq<seq<Byte>>, size: nat): (full: seq<seq<Byte>>)
    ensures forall w :: w in full ==> |w| == size
  {
    if windows == [] then []
    else
      var last := windows[|windows| - 1];
      FullWindows(windows[..|windows| - 1], size) + if |last| == size then [last] else []
  }

  /** Refused when too large, too small or when no sample could be read in full. */
  function GuessedLayout(windows: seq<seq<Byte>>, pointerWidth: nat, looks: Looks, size: nat): Option<seq<Field>>
  {
    var n := GuessSize(size);
    if size > MAX_SIZE || n < 4 || FullWindows(windows, n) == [] then None
    else AllFields(Guessed(SlotTypes(FullWindows(windows, n), pointerWidth, looks, n), 0, n))
  }

  predicate EditsFields(e: Edit) { e.SetField? || e.RemoveField? || e.SetFields? || e.Guess? }

  function StructureTitle(id: U64, name: string): string
  {
    if name == "" then "Structure " + Print(id, Dec) else name
  }

  /** A structure given a new layout, or left alone when the layout was refused. */
  function Relaid(s: State, i: nat, layout: Option<seq<Field>>): (State, bool)
    requires i < |s.structures|
  {
    match layout
    case None => (s, false)
    case Some(fields) => (s.(structures := s.structures[i := s.structures[i].(fields := fields)]), true)
  }

  function EditFields(s: State, id: U64, e: Edit): (State, bool)
  {
    match Index(s.structures, id)
    case None => (s, false)
    case Some(i) => Relaid(s, i, NewFields(s.structures[i], e))
  }

  function OnRename(s: State, id: U64, name: string): (State, bool)
  {
    match Index(s.structures, id)
    case None => (s, false)
    case Some(i) =>
      if name == "" then (s, false) else (s.(structures := s.structures[i := s.structures[i].(name := name)]), true)
  }

  /** One edit, and whether it was accepted. */
  function Apply(s: State, e: Edit): (State, bool)
  {
    match e
    case Add(name) =>
      var added := Structure(s.nextId, StructureTitle(s.nextId, name), []);
      (State(s.structures + [added], (s.nextId + 1) % TWO_TO_THE_64), true)
    case Remove(id) =>
      if Index(s.structures, id).None? then (s, false) else (s.(structures := WithoutId(s.structures, id)), true)
    case Rename(id, name) => OnRename(s, id, name)
    case SetField(id, _) => EditFields(s, id, e)
    case RemoveField(id, _) => EditFields(s, id, e)
    case SetFields(id, _) => EditFields(s, id, e)
    case Guess(id, _, _, _, _) => EditFields(s, id, e)
    case ForgetAll => (s.(structures := []), true)
  }

  function Run(s: State, es: seq<Edit>): State
    decreases es
  {
    if es == [] then s else Run(Apply(s, es[0]).0, es[1..])
  }

  ghost predicate AllValid(s: State)
  {
    forall k :: 0 <= k < |s.structures| ==> Valid(s.structures[k].fields)
  }

  /** The edit brings a field whose end is past the signed 64-bit range. */
  predicate Oversized(e: Edit)
  {
    || (e.SetField? && !Fits(e.field))
    || (e.SetFields? && exists f | f in e.fields :: !Fits(f))
  }

  lemma TiledLayoutAccepted(kinds: nat -> ValueType, n: nat)
    requires n <= MAX_SIZE && n % 4 == 0 && SlotsFit(kinds, n)
    ensures AllFields(Guessed(kinds, 0, n)) == Some(Guessed(kinds, 0, n))
    ensures Valid(Guessed(kinds, 0, n)) && Tiles(Guessed(kinds, 0, n), 0, n)
  {
    GuessTiles(kinds, 0, n);
    TilingIsValid(Guessed(kinds, 0, n), 0, n);
    ValidIsAccepted(Guessed(kinds, 0, n));
  }

  /** A guess is refused only for its size or for want of a sample; otherwise it tiles exactly the size asked for. */
  lemma GuessExactly(windows: seq<seq<Byte>>, pointerWidth: nat, looks: Looks, size: nat)
    ensures var layout := GuessedLayout(windows, pointerWidth, looks, size);
            && (layout.Some? <==>
                  size <= MAX_SIZE && GuessSize(size) >= 4 && FullWindows(windows, GuessSize(size)) != [])
            && (layout.Some? ==> Valid(layout.value) && Tiles(layout.value, 0, GuessSize(size)))
  {
    var n := GuessSize(size);
    if size <= MAX_SIZE && n >= 4 && FullWindows(windows, n) != [] {
      TiledLayoutAccepted(SlotTypes(FullWindows(windows, n), pointerWidth, looks, n), n);
    }
  }

  lemma NewFieldsExactly(s: Structure, e: Edit)
    requires Valid(s.fields) && NewFields(s, e).Some?
    ensures Valid(NewFields(s, e).value) <==> !Oversized(e)
  {
    match e
    case SetField(_, field) => SetFieldExactly(s.fields, field);
    case RemoveField(_, offset) => WithoutKeepsValid(s.fields, offset);
    case SetFields(_, fields) => SetFieldsExactly(fields);
    case Guess(_, windows, pointerWidth, looks, size) => GuessExactly(windows, pointerWidth, looks, size);
    case _ =>
  }

  /** An edit keeps every layout sound exactly when it is refused or brings no oversized field. */
  lemma EditExactly(s: State, e: Edit)
    requires AllValid(s)
    ensures AllValid(Apply(s, e).0) <==> !(Apply(s, e).1 && Oversized(e))
  {
    var t := Apply(s, e).0;
    if e.Add? {
      forall k | 0 <= k < |t.structures| ensures Valid(t.structures[k].fields) {
        if k < |s.structures| { assert t.structures[k] == s.structures[k]; }
      }
    } else if e.Remove? {
      forall k | 0 <= k < |t.structures| ensures Valid(t.structures[k].fields) {
        assert t.structures[k] in t.structures;
      }
    } else if EditsFields(e) {
      match Index(s.structures, e.id)
      case None =>
      case Some(i) =>
        if NewFields(s.structures[i], e).Some? {
          NewFieldsExactly(s.structures[i], e);
          assert t.structures[i].fields == NewFields(s.structures[i], e).value;
          assert forall k :: 0 <= k < |s.structures| && k != i ==> t.structures[k] == s.structures[k];
        }
    }
  }

  /** Over any run of edits whose fields fit, every layout stays sorted, positive-width and disjoint. */
  lemma {:induction false} RunKeepsLayouts(s: State, es: seq<Edit>)
    requires AllValid(s) && forall e :: e in es ==> !Oversized(e)
    ensures AllValid(Run(s, es))
    decreases es
  {
    if es != [] {
      EditExactly(s, es[0]);
      RunKeepsLayouts(Apply(s, es[0]).0, es[1..]);
    }
  }

  /** Ids are distinct and have all been handed out. */
  ghost predicate IdsFresh(s: State)
  {
    && (forall i :: 0 <= i < |s.structures| ==> s.structures[i].id < s.nextId)
    && IdsDiffer(s.structures)
  }

  ghost predicate IdsDiffer(structures: seq<Structure>)
  {
    forall i, j :: 0 <= i < j < |structures| ==> structures[i].id != structures[j].id
  }

  /** Renaming or laying out one structure leaves the others, and the rest of that one, as they were. */
  lemma EditTouchesOne(s: State, e: Edit)
    requires EditsFields(e) || e.Rename?
    ensures var (t, done) := Apply(s, e);
            && |t.structures| == |s.structures| && t.nextId == s.nextId && (!done ==> t == s)
            && forall k :: 0 <= k < |s.structures| ==>
                 && t.structures[k].id == s.structures[k].id
                 && (s.structures[k].id != e.id ==> t.structures[k] == s.structures[k])
                 && (if e.Rename? then t.structures[k].fields == s.structures[k].fields
                     else t.structures[k].name == s.structures[k].name)
  {
  }

  lemma OneOfAnId(s: State, i: nat, k: nat)
    requires IdsFresh(s) && i < |s.structures| && k < |s.structures| && i != k
    ensures s.structures[i].id != s.structures[k].id
  {
    assert s.structures[Min(i, k)].id != s.structures[Max(i, k)].id;
  }

  /** A structure is renamed exactly when it is there and the new name says something. */
  lemma RenameExactly(s: State, id: U64, name: string)
    requires IdsFresh(s)
    ensures var (t, done) := Apply(s, Rename(id, name));
            && (done <==> name != "" && exists x :: x in s.structures && x.id == id)
            && (done ==> forall x :: x in t.structures && x.id == id ==> x.name == name)
  {
    var (t, done) := Apply(s, Rename(id, name));
    if done {
      var i := Index(s.structures, id).value;
      forall x | x in t.structures && x.id == id ensures x.name == name {
        var k :| 0 <= k < |t.structures| && t.structures[k] == x;
        if k != i { OneOfAnId(s, i, k); }
      }
    }
  }

  lemma {:induction false} WithoutIdKeepsFresh(structures: seq<Structure>, id: U64)
    requires IdsDiffer(structures)
    ensures IdsDiffer(WithoutId(structures, id))
    decreases structures
  {
    if structures != [] {
      TailsDiffer(structures);
      WithoutIdKeepsFresh(structures[1..], id);
      if structures[0].id != id { ConsDiffers(structures[0], WithoutId(structures[1..], id)); }
    }
  }

  lemma TailsDiffer(structures: seq<Structure>)
    requires structures != [] && IdsDiffer(structures)
    ensures IdsDiffer(structures[1..]) && forall x :: x in structures[1..] ==> x.id != structures[0].id
  {
    forall i, j | 0 <= i < j < |structures| - 1 ensures structures[1..][i].id != structures[1..][j].id {
      assert structures[i + 1].id != structures[j + 1].id;
    }
    forall x | x in structures[1..] ensures x.id != structures[0].id {
      var k :| 0 <= k < |structures| - 1 && structures[1..][k] == x;
      assert structures[0].id != structures[k + 1].id;
    }
  }

  lemma ConsDiffers(first: Structure, rest: seq<Structure>)
    requires IdsDiffer(rest) && forall x :: x in rest ==> x.id != first.id
    ensures IdsDiffer([first] + rest)
  {
    var all := [first] + rest;
    forall i, j | 0 <= i < j < |all| ensures all[i].id != all[j].id {
      if i == 0 { assert all[j] == rest[j - 1] && rest[j - 1] in rest; }
    }
  }

  lemma StepKeepsIds(s: State, e: Edit)
    requires IdsFresh(s) && s.nextId + 1 < TWO_TO_THE_64
    ensures IdsFresh(Apply(s, e).0) && s.nextId <= Apply(s, e).0.nextId <= s.nextId + 1
  {
    if e.Remove? {
      RemoveKeepsIds(s, e.id);
    } else if e.Add? {
      var t := Apply(s, e).0;
      assert forall i :: 0 <= i < |s.structures| ==> t.structures[i] == s.structures[i];
    } else if !e.ForgetAll? {
      EditTouchesOne(s, e);
      SameIdsFresh(s, Apply(s, e).0);
    }
  }

  lemma RemoveKeepsIds(s: State, id: U64)
    requires IdsFresh(s)
    ensures IdsFresh(Apply(s, Remove(id)).0)
  {
    var rest := WithoutId(s.structures, id);
    WithoutIdKeepsFresh(s.structures, id);
    forall i | 0 <= i < |rest| ensures rest[i].id < s.nextId {
      assert rest[i] in rest;
      var k :| 0 <= k < |s.structures| && s.structures[k] == rest[i];
    }
  }

  lemma SameIdsFresh(s: State, t: State)
    requires IdsFresh(s) && |t.structures| == |s.structures| && t.nextId == s.nextId
    requires forall k :: 0 <= k < |s.structures| ==> t.structures[k].id == s.structures[k].id
    ensures IdsFresh(t)
  {
    forall i, j | 0 <= i < j < |t.structures| ensures t.structures[i].id != t.structures[j].id {
      assert s.structures[i].id != s.structures[j].id;
    }
  }

  /** Ids stay distinct over every run of fewer than 2^64 edits: none is handed out twice. */
  lemma {:induction false} RunKeepsIds(s: State, es: seq<Edit>)
    requires IdsFresh(s) && s.nextId + |es| < TWO_TO_THE_64
    ensures IdsFresh(Run(s, es))
    decreases es
  {
    if es != [] {
      StepKeepsIds(s, es[0]);
      RunKeepsIds(Apply(s, es[0]).0, es[1..]);
    }
  }

  class Dissector {
    var structures: seq<Structure>
    var nextId: U64
    var revision: nat

    function Now(): State
      reads this
    {
      State(structures, nextId)
    }

    constructor ()
      ensures Now() == State([], 1)
    {
      structures, nextId, revision := [], 1, 0;
    }

    method AddStructure(name: string) returns (id: U64)
      modifies this
      ensures (Now(), true) == Apply(old(Now()), Add(name)) && id == old(nextId)
    {
      revision := revision + 1;
      id := nextId;
      nextId := (nextId + 1) % TWO_TO_THE_64;
      structures := structures + [Structure(id, StructureTitle(id, name), [])];
    }

    method RemoveStructure(id: U64) returns (done: bool)
      modifies this
      ensures (Now(), done) == Apply(old(Now()), Remove(id))
    {
      revision := revision + 1;
      done := Index(structures, id).Some?;
      if done {
        structures := WithoutId(structures, id);
      }
    }

    method RenameStructure(id: U64, name: string) returns (done: bool)
      modifies this
      ensures (Now(), done) == Apply(old(Now()), Rename(id, name))
    {
      revision := revision + 1;
      var at := Index(structures, id);
      if at.None? || name == "" {
        return false;
      }
      structures := structures[at.value := structures[at.value].(name := name)];
      return true;
    }

    /** Refuses a field without a width or over another's bytes; names it; replaces or inserts it. */
    method PutField(id: U64, field: Field) returns (done: bool)
      modifies this
      ensures (Now(), done) == Apply(old(Now()), SetField(id, field))
    {
      revision := revision + 1;
      var at := Index(structures, id);
      if at.None? || Size(field) == 0 {
        return false;
      }
      var fields := structures[at.value].fields;
      for k := 0 to |fields|
        invariant forall j :: 0 <= j < k ==> !Clashes(fields[j], field)
      {
        if fields[k].offset != field.offset && field.offset < End(fields[k]) && fields[k].offset < End(field) {
          assert Clashes(fields[k], field) && fields[k] in fields;
          return false;
        }
      }
      var same := Position(fields, field.offset);
      if same.Some? {
        fields := fields[same.value := Named(field)];
      } else {
        fields := SortFields(fields + [Named(field)]);
      }
      structures := structures[at.value := structures[at.value].(fields := fields)];
      return true;
    }

    method DropField(id: U64, offset: I64) returns (done: bool)
      modifies this
      ensures (Now(), done) == Apply(old(Now()), RemoveField(id, offset))
    {
      revision := revision + 1;
      var at := Index(structures, id);
      if at.None? || Position(structures[at.value].fields, offset).None? {
        return false;
      }
      var fields := Without(structures[at.value].fields, offset);
      structures := structures[at.value := structures[at.value].(fields := fields)];
      return true;
    }

    method Install(id: U64, layout: Option<seq<Field>>) returns (done: bool)
      modifies this
      ensures match Index(old(structures), id)
              case None => Now() == old(Now()) && !done
              case Some(i) => (Now(), done) == Relaid(old(Now()), i, layout)
    {
      if layout.None? {
        return false;
      }
      revision := revision + 1;
      var at := Index(structures, id);
      if at.None? {
        return false;
      }
      structures := structures[at.value := structures[at.value].(fields := layout.value)];
      return true;
    }

    /** Sorts, then walks the fields once, comparing each with the one before and naming it. */
    method PutFields(id: U64, fields: seq<Field>) returns (done: bool)
      modifies this
      ensures (Now(), done) == Apply(old(Now()), SetFields(id, fields))
    {
      var layout := NameSorted(fields);
      done := Install(id, layout);
    }

    method GuessStructure(id: U64, windows: seq<seq<Byte>>, pointerWidth: nat, looks: Looks, size: nat)
      returns (done: bool)
      modifies this
      ensures (Now(), done) == Apply(old(Now()), Guess(id, windows, pointerWidth, looks, size))
    {
      var layout := GuessLayout(windows, pointerWidth, looks, size);
      done := Install(id, layout);
    }

    method Forget()
      modifies this
      ensures (Now(), true) == Apply(old(Now()), ForgetAll)
    {
      revision := revision + 1;
      structures := [];
    }
  }

  method GuessLayout(windows: seq<seq<Byte>>, pointerWidth: nat, looks: Looks, size: nat)
    returns (layout: Option<seq<Field>>)
    ensures layout == GuessedLayout(windows, pointerWidth, looks, size)
  {
    var n := GuessSize(size);
    var full := FullWindows(windows, n);
    if size > MAX_SIZE || n < 4 || full == [] {
      return None;
    }
    var fields := GuessFields(SlotTypes(full, pointerWidth, looks, n), n);
    layout := NameSorted(fields);
  }

  method NameSorted(fields: seq<Field>) returns (layout: Option<seq<Field>>)
    ensures layout == AllFields(fields)
  {
    var sorted := SortFields(fields);
    var named: seq<Field> := [];
    for i := 0 to |sorted|
      invariant NamedSoFar(named, sorted, i)
      invariant forall k :: 0 <= k < i ==> Size(sorted[k]) != 0
      invariant forall k :: 0 < k < i ==> sorted[k].offset >= End(sorted[k - 1])
    {
      if Size(sorted[i]) == 0 || (i > 0 && sorted[i].offset < End(sorted[i - 1])) {
        return None;
      }
      NameOneMore(named, sorted, i);
      named := named + [Named(sorted[i])];
    }
    AllNamed(named, sorted);
    return Some(named);
  }

  predicate NamedSoFar(named: seq<Field>, sorted: seq<Field>, i: nat)
    requires i <= |sorted|
  {
    |named| == i && forall k :: 0 <= k < i ==> named[k] == Named(sorted[k])
  }

  lemma NameOneMore(named: seq<Field>, sorted: seq<Field>, i: nat)
    requires i < |sorted| && NamedSoFar(named, sorted, i)
    ensures NamedSoFar(named + [Named(sorted[i])], sorted, i + 1)
  {
  }

  lemma AllNamed(named: seq<Field>, sorted: seq<Field>)
    requires NamedSoFar(named, sorted, |sorted|)
    ensures named == NamedAll(sorted)
  {
  }
}
