/** Editing a structure's fields: sorted, of positive width and pairwise disjoint, or refused. */
module StructureLayout {
  import opened Common
  import opened Structures

  function Named(f: Field): (named: Field)
    ensures named.name != "" && named.offset == f.offset && Size(named) == Size(f)
    ensures named.kind == f.kind && named.length == f.length && (f.name != "" ==> named == f)
  {
    f.(name := if f.name == "" then DefaultFieldName(f.offset) else f.name)
  }

  /** Sorting by offset, fields of one offset keeping their order. */
  function Insert(f: Field, sorted: seq<Field>): seq<Field>
  {
    if sorted == [] || f.offset < sorted[0].offset then [f] + sorted else [sorted[0]] + Insert(f, sorted[1..])
  }

  function SortFields(fields: seq<Field>): seq<Field>
  {
    if fields == [] then [] else Insert(fields[|fields| - 1], SortFields(fields[..|fields| - 1]))
  }

  /** The source's overlap test, in 64-bit signed arithmetic. */
  predicate Clashes(a: Field, b: Field)
  {
    a.offset != b.offset && b.offset < End(a) && a.offset < End(b)
  }

  function Position(fields: seq<Field>, offset: int): (at: Option<nat>)
    ensures at.Some? ==> at.value < |fields| && fields[at.value].offset == offset
    ensures at.None? <==> forall f :: f in fields ==> f.offset != offset
  {
    if fields == [] then None
    else if fields[0].offset == offset then Some(0)
    else match Position(fields[1..], offset)
      case None => None
      case Some(i) => Some(i + 1)
  }

  /** Adding a field, or replacing the one at its offset. */
  function WithField(fields: seq<Field>, f: Field): Option<seq<Field>>
  {
    if Size(f) == 0 || exists e | e in fields :: Clashes(e, f) then None
    else match Position(fields, f.offset)
      case Some(i) => Some(fields[i := Named(f)])
      case None => Some(SortFields(fields + [Named(f)]))
  }

  function Without(fields: seq<Field>, offset: int): seq<Field>
  {
    if fields == [] then []
    else if fields[0].offset == offset then Without(fields[1..], offset)
    else [fields[0]] + Without(fields[1..], offset)
  }

  function RemovedField(fields: seq<Field>, offset: int): Option<seq<Field>>
  {
    if Position(fields, offset).None? then None else Some(Without(fields, offset))
  }

  function NamedAll(fields: seq<Field>): (named: seq<Field>)
    ensures |named| == |fields| && forall i :: 0 <= i < |fields| ==> named[i] == Named(fields[i])
  {
    seq(|fields|, i requires 0 <= i < |fields| => Named(fields[i]))
  }

  /** Only neighbours are compared. */
  predicate NeighboursApart(sorted: seq<Field>)
  {
    && (forall i | 0 <= i < |sorted| :: Size(sorted[i]) != 0)
    && (forall i | 0 < i < |sorted| :: sorted[i].offset >= End(sorted[i - 1]))
  }

  /** Replacing the whole layout. */
  function AllFields(fields: seq<Field>): Option<seq<Field>>
  {
    var sorted := SortFields(fields);
    if NeighboursApart(sorted) then Some(NamedAll(sorted)) else None
  }

  // --- What a layout promises ----------------------------------------------------------------------

  /** The field ends inside the signed 64-bit range, so that its computed end is its end. */
  predicate Fits(f: Field) { f.offset + Size(f) < TWO_TO_THE_63 }

  predicate Before(a: Field, b: Field) { a.offset + Size(a) <= b.offset }

  predicate Apart(a: Field, b: Field) { Before(a, b) || Before(b, a) }

  predicate Solid(f: Field) { Size(f) > 0 && Fits(f) }

  /** Strictly sorted, positive widths, no byte owned twice. */
  ghost predicate Laid(fields: seq<Field>)
  {
    && (forall i :: 0 <= i < |fields| ==> Solid(fields[i]))
    && (forall i, j :: 0 <= i < j < |fields| ==> Before(fields[i], fields[j]))
  }

  ghost predicate Valid(fields: seq<Field>)
  {
    Laid(fields) && forall f :: f in fields ==> f.name != ""
  }

  lemma EndOfFitting(f: Field)
    requires Fits(f)
    ensures End(f) == f.offset + Size(f)
  {
  }

  lemma ClashIsOverlap(a: Field, b: Field)
    requires Fits(a) && Fits(b) && a.offset != b.offset && Size(a) > 0 && Size(b) > 0
    ensures Clashes(a, b) <==> !Before(a, b) && !Before(b, a)
  {
    EndOfFitting(a);
    EndOfFitting(b);
  }

  predicate Ascending(fields: seq<Field>)
  {
    forall i, j :: 0 <= i < j < |fields| ==> fields[i].offset <= fields[j].offset
  }

  lemma {:induction false} InsertAt(f: Field, sorted: seq<Field>) returns (k: nat)
    ensures k <= |sorted| && Insert(f, sorted) == sorted[..k] + [f] + sorted[k..]
    ensures forall i :: 0 <= i < k ==> sorted[i].offset <= f.offset
    ensures k < |sorted| ==> f.offset < sorted[k].offset
  {
    if sorted == [] || f.offset < sorted[0].offset {
      k := 0;
      assert sorted[..0] == [] && sorted[0..] == sorted;
      assert sorted[..0] + [f] + sorted[0..] == [f] + sorted;
    } else {
      var j := InsertAt(f, sorted[1..]);
      k := j + 1;
      CutLater(sorted, f, j);
      assert forall i :: 0 < i < k ==> sorted[i] == sorted[1..][i - 1];
      assert k < |sorted| ==> sorted[k] == sorted[1..][j];
    }
  }

  lemma CutLater<T>(s: seq<T>, x: T, j: nat)
    requires s != [] && j < |s|
    ensures [s[0]] + (s[1..][..j] + [x] + s[1..][j..]) == s[..j + 1] + [x] + s[j + 1..]
  {
    assert s[..j + 1] == [s[0]] + s[1..][..j];
    assert s[j + 1..] == s[1..][j..];
  }

  lemma InsertAscends(f: Field, sorted: seq<Field>)
    requires Ascending(sorted)
    ensures Ascending(Insert(f, sorted))
  {
    var k := InsertAt(f, sorted);
    var after := Insert(f, sorted);
    forall i, j | 0 <= i < j < |after|
      ensures after[i].offset <= after[j].offset
    {
      assert i != k ==> after[i] == sorted[if i < k then i else i - 1];
      assert j != k ==> after[j] == sorted[if j < k then j else j - 1];
    }
  }

  lemma {:induction false} InsertAdds(f: Field, sorted: seq<Field>)
    ensures multiset(Insert(f, sorted)) == multiset(sorted) + multiset{f}
    ensures |Insert(f, sorted)| == |sorted| + 1
    ensures forall x :: x in Insert(f, sorted) <==> x == f || x in sorted
  {
    if sorted != [] && f.offset >= sorted[0].offset {
      InsertAdds(f, sorted[1..]);
      assert sorted == [sorted[0]] + sorted[1..];
    }
  }

  lemma {:induction false} SortSorts(fields: seq<Field>)
    ensures Ascending(SortFields(fields)) && |SortFields(fields)| == |fields|
    ensures forall x :: x in SortFields(fields) <==> x in fields
    ensures multiset(SortFields(fields)) == multiset(fields)
  {
    if fields != [] {
      var front, last := fields[..|fields| - 1], fields[|fields| - 1];
      SortSorts(front);
      InsertAscends(last, SortFields(front));
      InsertAdds(last, SortFields(front));
      assert fields == front + [last];
    }
  }

  /** A field that is apart from all the others goes where it keeps the layout in order. */
  lemma InsertKeepsLaid(f: Field, sorted: seq<Field>)
    requires Laid(sorted) && Solid(f) && forall e :: e in sorted ==> Apart(e, f)
    ensures Laid(Insert(f, sorted))
  {
    var k := InsertAt(f, sorted);
    var after := Insert(f, sorted);
    forall i | 0 <= i < |sorted|
      ensures if i < k then Before(sorted[i], f) else Before(f, sorted[i])
    {
      assert sorted[i] in sorted && Apart(sorted[i], f);
      AscendingFrom(sorted, k, i);
    }
    InsertedAt(sorted, f, k);
    forall i, j | 0 <= i < j < |after|
      ensures Before(after[i], after[j])
    {
      assert i < k ==> after[i] == sorted[i];
      assert i > k ==> after[i] == sorted[i - 1];
      assert j < k ==> after[j] == sorted[j];
      assert j > k ==> after[j] == sorted[j - 1];
    }
  }

  lemma AscendingFrom(sorted: seq<Field>, k: nat, i: nat)
    requires Laid(sorted) && i < |sorted| && k <= |sorted|
    ensures k <= i ==> sorted[k].offset <= sorted[i].offset
  {
    assert k < i ==> Before(sorted[k], sorted[i]);
  }

  /** Where everything is after an insertion at k. */
  lemma InsertedAt<T>(s: seq<T>, x: T, k: nat)
    requires k <= |s|
    ensures var after := s[..k] + [x] + s[k..];
            && |after| == |s| + 1 && after[k] == x
            && (forall i :: 0 <= i < k ==> after[i] == s[i])
            && (forall i :: k < i < |after| ==> after[i] == s[i - 1])
  {
  }

  /** And a layout in order has its fields apart from one another. */
  lemma InsertedIsApart(f: Field, sorted: seq<Field>)
    requires Laid(Insert(f, sorted))
    ensures Laid(sorted) && Solid(f) && forall e :: e in sorted ==> Apart(e, f)
  {
    var k := InsertAt(f, sorted);
    var after := Insert(f, sorted);
    assert after[k] == f;
    forall i, j | 0 <= i < j < |sorted|
      ensures Before(sorted[i], sorted[j])
    {
      assert sorted[i] == after[if i < k then i else i + 1];
      assert sorted[j] == after[if j < k then j else j + 1];
    }
    forall i | 0 <= i < |sorted|
      ensures Solid(sorted[i]) && Apart(sorted[i], f)
    {
      assert sorted[i] == after[if i < k then i else i + 1];
    }
  }

  ghost predicate AllSolid(fields: seq<Field>)
  {
    forall f :: f in fields ==> Solid(f)
  }

  ghost predicate PairwiseApart(fields: seq<Field>)
  {
    forall i, j :: 0 <= i < j < |fields| ==> Apart(fields[i], fields[j])
  }

  /** Sorting yields an orderly layout exactly when no two of the fields overlap. */
  lemma {:induction false} SortedIsLaid(fields: seq<Field>)
    ensures Laid(SortFields(fields)) <==> AllSolid(fields) && PairwiseApart(fields)
  {
    if fields != [] {
      var front, last := fields[..|fields| - 1], fields[|fields| - 1];
      SortedIsLaid(front);
      SortSorts(front);
      assert fields == front + [last];
      if Laid(SortFields(fields)) {
        InsertedIsApart(last, SortFields(front));
        ApartFromAll(fields, front, last);
      }
      if AllSolid(fields) && PairwiseApart(fields) {
        ApartFromLast(fields, front, last);
        InsertKeepsLaid(last, SortFields(front));
      }
    }
  }

  lemma ApartFromAll(fields: seq<Field>, front: seq<Field>, last: Field)
    requires fields == front + [last] && PairwiseApart(front)
    requires forall e :: e in front ==> Apart(e, last)
    ensures PairwiseApart(fields)
    ensures forall f :: f in fields <==> f in front || f == last
  {
    forall i, j | 0 <= i < j < |fields|
      ensures Apart(fields[i], fields[j])
    {
      assert fields[i] == front[i] && front[i] in front;
      if j < |front| { assert fields[j] == front[j]; }
    }
  }

  lemma ApartFromLast(fields: seq<Field>, front: seq<Field>, last: Field)
    requires fields == front + [last] && PairwiseApart(fields)
    ensures PairwiseApart(front)
    ensures forall e :: e in front ==> Apart(e, last)
    ensures forall f :: f in fields <==> f in front || f == last
  {
    forall e | e in front ensures Apart(e, last) {
      var i :| 0 <= i < |front| && front[i] == e;
      assert fields[i] == e && fields[|front|] == last;
    }
    forall i, j | 0 <= i < j < |front| ensures Apart(front[i], front[j]) {
      assert fields[i] == front[i] && fields[j] == front[j];
    }
  }

  /** Comparing neighbours is enough: for fields that fit, it decides pairwise disjointness. */
  lemma {:induction false} NeighboursDecide(sorted: seq<Field>)
    requires forall f :: f in sorted ==> Fits(f)
    ensures NeighboursApart(sorted) <==> Laid(sorted)
  {
    forall f | f in sorted ensures End(f) == f.offset + Size(f) { EndOfFitting(f); }
    if NeighboursApart(sorted) {
      forall i, j | 0 <= i < j < |sorted|
        ensures Before(sorted[i], sorted[j])
      {
        NeighboursChain(sorted, i, j);
      }
    }
    if Laid(sorted) {
      forall i | 0 < i < |sorted| ensures sorted[i].offset >= End(sorted[i - 1]) {
        assert Before(sorted[i - 1], sorted[i]);
        assert sorted[i - 1] in sorted;
      }
    }
  }

  lemma {:induction false} NeighboursChain(sorted: seq<Field>, i: nat, j: nat)
    requires NeighboursApart(sorted) && i < j < |sorted| && forall f :: f in sorted ==> Fits(f)
    ensures Before(sorted[i], sorted[j])
    decreases j
  {
    EndOfFitting(sorted[j - 1]);
    if i < j - 1 { NeighboursChain(sorted, i, j - 1); }
  }

  // --- The edits -----------------------------------------------------------------------------------

  lemma {:induction false} SortOfSorted(fields: seq<Field>)
    requires Laid(fields)
    ensures SortFields(fields) == fields
  {
    if fields != [] {
      var front, last := fields[..|fields| - 1], fields[|fields| - 1];
      SortOfSorted(front);
      var k := InsertAt(last, front);
      assert k < |front| ==> Before(fields[k], last);
      assert fields == front + [last];
    }
  }

  /** A field that fits is accepted exactly when it has a width and no other field owns one of its bytes. */
  lemma AcceptedExactly(fields: seq<Field>, f: Field)
    requires Laid(fields) && Fits(f)
    ensures WithField(fields, f).Some? <==>
            Size(f) > 0 && forall e :: e in fields ==> e.offset == f.offset || Apart(e, f)
  {
    if Size(f) > 0 {
      forall e | e in fields ensures Clashes(e, f) <==> e.offset != f.offset && !Apart(e, f) {
        if e.offset != f.offset { ClashIsOverlap(e, f); }
      }
    }
  }

  /** What an accepted field leaves: itself, named, and every field at another offset. */
  lemma SetFieldContents(fields: seq<Field>, f: Field)
    requires Laid(fields) && WithField(fields, f).Some?
    ensures forall x :: x in WithField(fields, f).value <==> x == Named(f) || (x in fields && x.offset != f.offset)
  {
    var after := WithField(fields, f).value;
    match Position(fields, f.offset)
    case None =>
      SortSorts(fields + [Named(f)]);
    case Some(i) =>
      forall k | 0 <= k < |fields| && k != i ensures fields[k].offset != f.offset && after[k] == fields[k] {
        assert Before(fields[Min(i, k)], fields[Max(i, k)]);
      }
      assert after[i] == Named(f);
  }

  lemma ReplacedIsLaid(fields: seq<Field>, f: Field, i: nat)
    requires Laid(fields) && Solid(f) && i < |fields| && fields[i].offset == f.offset
    requires forall e :: e in fields ==> e.offset == f.offset || Apart(e, f)
    ensures Laid(fields[i := Named(f)])
  {
    forall k | 0 <= k < |fields| && k != i
      ensures if k < i then Before(fields[k], f) else Before(f, fields[k])
    {
      assert fields[k] in fields && Before(fields[Min(i, k)], fields[Max(i, k)]);
    }
  }

  /** A sound layout stays sound after an accepted field exactly when that field fits. */
  lemma SetFieldExactly(fields: seq<Field>, f: Field)
    requires Valid(fields) && WithField(fields, f).Some?
    ensures Valid(WithField(fields, f).value) <==> Fits(f)
  {
    var after := WithField(fields, f).value;
    SetFieldContents(fields, f);
    assert Named(f) in after;
    if Fits(f) {
      AcceptedExactly(fields, f);
      match Position(fields, f.offset)
      case Some(i) => ReplacedIsLaid(fields, f, i);
      case None =>
        SortOfSorted(fields);
        assert (fields + [Named(f)])[..|fields|] == fields;
        InsertKeepsLaid(Named(f), fields);
    }
  }

  lemma {:induction false} WithoutKeepsValid(fields: seq<Field>, offset: int)
    requires Valid(fields)
    ensures Valid(Without(fields, offset))
    ensures forall x :: x in Without(fields, offset) <==> x in fields && x.offset != offset
  {
    if fields != [] {
      assert fields == [fields[0]] + fields[1..];
      WithoutKeepsValid(fields[1..], offset);
      var rest := Without(fields[1..], offset);
      forall x | x in rest ensures Before(fields[0], x) {
        var j :| 0 <= j < |fields[1..]| && fields[1..][j] == x;
        assert fields[j + 1] == x;
      }
      forall j | 0 <= j < |rest| ensures Before(fields[0], rest[j]) { assert rest[j] in rest; }
    }
  }

  lemma NamedAllLaid(fields: seq<Field>)
    ensures Laid(NamedAll(fields)) <==> Laid(fields)
    ensures Valid(NamedAll(fields)) <==> Laid(fields)
  {
    var named := NamedAll(fields);
    if Laid(named) {
      forall i | 0 <= i < |fields| ensures Solid(fields[i]) { assert Solid(named[i]); }
      forall i, j | 0 <= i < j < |fields| ensures Before(fields[i], fields[j]) { assert Before(named[i], named[j]); }
    }
  }

  /** An accepted layout is sound exactly when each of its fields fits. */
  lemma SetFieldsExactly(fields: seq<Field>)
    requires AllFields(fields).Some?
    ensures Valid(AllFields(fields).value) <==> forall f :: f in fields ==> Fits(f)
  {
    var sorted := SortFields(fields);
    SortSorts(fields);
    NamedAllLaid(sorted);
    if forall f :: f in fields ==> Fits(f) {
      NeighboursDecide(sorted);
    }
    if Laid(sorted) {
      forall f | f in sorted ensures Fits(f) {
        var i :| 0 <= i < |sorted| && sorted[i] == f;
        assert Solid(sorted[i]);
      }
    }
  }

  /** An accepted layout holds each of its fields, named, and nothing else, in ascending order. */
  lemma SetFieldsContents(fields: seq<Field>)
    requires AllFields(fields).Some?
    ensures |AllFields(fields).value| == |fields| && Ascending(AllFields(fields).value)
    ensures forall x :: x in AllFields(fields).value <==> exists f :: f in fields && x == Named(f)
  {
    var sorted, after := SortFields(fields), AllFields(fields).value;
    SortSorts(fields);
    forall x | x in after ensures exists f :: f in fields && x == Named(f) {
      var i :| 0 <= i < |after| && after[i] == x;
      assert sorted[i] in sorted;
    }
    forall f | f in fields ensures Named(f) in after {
      assert f in sorted;
      var i :| 0 <= i < |sorted| && sorted[i] == f;
      assert after[i] == Named(f);
    }
  }

  /** Fields that fit are accepted as a layout exactly when each has a width and no two overlap. */
  lemma SetFieldsAcceptedExactly(fields: seq<Field>)
    requires forall f :: f in fields ==> Fits(f)
    ensures AllFields(fields).Some? <==> (forall f :: f in fields ==> Size(f) > 0) && PairwiseApart(fields)
  {
    SortSorts(fields);
    NeighboursDecide(SortFields(fields));
    SortedIsLaid(fields);
    assert AllSolid(fields) <==> forall f :: f in fields ==> Size(f) > 0;
  }

  /** A length of 2^63 wraps the computed end below the field, and another field may then be put inside it. */
  lemma HugeFieldIsOverlapped()
    ensures var huge := Field(0, Bytes, TWO_TO_THE_63, "huge");
            var inner := Field(5, UInt8, 0, "inner");
            && WithField([], huge) == Some([huge])
            && WithField([huge], inner).Some? && inner in WithField([huge], inner).value
            && !Apart(huge, inner) && !Fits(huge)
  {
    var huge := Field(0, Bytes, TWO_TO_THE_63, "huge");
    var inner := Field(5, UInt8, 0, "inner");
    assert Size(huge) == TWO_TO_THE_63 && Size(inner) == 1;
    assert End(huge) == -TWO_TO_THE_63;
    assert SortFields([] + [huge]) == [huge] by { assert ([] + [huge])[..0] == []; }
    SortSorts([huge] + [inner]);
  }
}
