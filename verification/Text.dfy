/** Characters and pieces of text, as the C library classifies and the stream library splits them. */
module Text {
  import opened Common

  function LowerChar(c: char): char { if 'A' <= c <= 'Z' then c - 'A' + 'a' else c }

  function Lower(s: string): (lowered: string)
    ensures |lowered| == |s|
    ensures forall i :: 0 <= i < |s| ==> lowered[i] == LowerChar(s[i])
  {
    seq(|s|, i requires 0 <= i < |s| => LowerChar(s[i]))
  }

  /** The same character, or the same letter of the other case. */
  predicate SameLetter(c: char, d: char)
  {
    || c == d
    || ('A' <= c <= 'Z' && d as int == c as int + 32)
    || ('A' <= d <= 'Z' && c as int == d as int + 32)
  }

  predicate SameButCase(left: string, right: string)
  {
    |left| == |right| && forall i :: 0 <= i < |left| ==> SameLetter(left[i], right[i])
  }

  /** Texts lower to the same text exactly when they differ in the case of letters at most. */
  lemma SameButCaseExactly(left: string, right: string)
    ensures SameButCase(left, right) <==>
            |left| == |right| && forall i :: 0 <= i < |left| ==> LowerChar(left[i]) == LowerChar(right[i])
    ensures SameButCase(left, right) <==> Lower(left) == Lower(right)
  {
    if |left| == |right| {
      forall i | 0 <= i < |left| ensures SameLetter(left[i], right[i]) <==> Lower(left)[i] == Lower(right)[i] {
        LowerMeets(left[i], right[i]);
      }
      if Lower(left) != Lower(right) {
        var i :| 0 <= i < |left| && Lower(left)[i] != Lower(right)[i];
      }
    }
  }

  lemma LowerMeets(c: char, d: char)
    ensures SameLetter(c, d) <==> LowerChar(c) == LowerChar(d)
  {
  }

  predicate Space(c: char) { c == ' ' || '\t' <= c <= '\r' }

  function SkipSpace(s: string): string
  {
    if s != "" && Space(s[0]) then SkipSpace(s[1..]) else s
  }

  function IndexOf(text: string, c: char): (at: Option<nat>)
    ensures at.Some? ==> at.value < |text| && text[at.value] == c && c !in text[..at.value]
    ensures at.None? <==> c !in text
  {
    if text == "" then None
    else if text[0] == c then Some(0)
    else match IndexOf(text[1..], c)
      case None => None
      case Some(i) => assert text[..i + 1] == [text[0]] + text[1..][..i]; Some(i + 1)
  }

  /** What reading up to each separator yields; text that ends with one has no empty piece after it. */
  function Pieces(text: string, separator: char): seq<string>
    decreases |text|
  {
    if text == "" then []
    else match IndexOf(text, separator)
      case None => [text]
      case Some(i) => [text[..i]] + Pieces(text[i + 1..], separator)
  }

  lemma {:induction false} IndexOfFirst(head: string, c: char, tail: string)
    requires c !in head
    ensures IndexOf(head + [c] + tail, c) == Some(|head|)
    decreases head
  {
    var text := head + [c] + tail;
    if head != "" {
      assert text[1..] == head[1..] + [c] + tail;
      IndexOfFirst(head[1..], c, tail);
    }
  }

  /** The first piece and what follows it. */
  lemma PieceStep(head: string, separator: char, tail: string)
    requires separator !in head
    ensures Pieces(head + [separator] + tail, separator) == [head] + Pieces(tail, separator)
  {
    IndexOfFirst(head, separator, tail);
    var text := head + [separator] + tail;
    assert text[..|head|] == head && text[|head| + 1..] == tail;
  }

  /** Lines, each with its terminator. */
  function Terminated(lines: seq<string>, terminator: char): string
  {
    if lines == [] then "" else lines[0] + [terminator] + Terminated(lines[1..], terminator)
  }

  lemma {:induction false} PiecesOfTerminated(lines: seq<string>, terminator: char)
    requires forall line :: line in lines ==> terminator !in line
    ensures Pieces(Terminated(lines, terminator), terminator) == lines
  {
    if lines != [] {
      PieceStep(lines[0], terminator, Terminated(lines[1..], terminator));
      PiecesOfTerminated(lines[1..], terminator);
    }
  }
}
