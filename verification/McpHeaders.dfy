/** What a header block means: its lines are exactly the CRLF-separated pieces, and the last field of a name counts. */
module McpHeaders {
  import opened Common
  import opened Text
  import opened Numerals
  import opened McpHttp
  import opened McpReceive

  function JoinLines(lines: seq<string>): string
    requires lines != []
  {
    if |lines| == 1 then lines[0] else lines[0] + CRLF + JoinLines(lines[1..])
  }

  ghost predicate HasNoBreak(line: string)
  {
    forall i: nat :: !OccursAt(line, CRLF, i)
  }

  lemma PieceHasNoBreak(head: string, start: nat)
    requires start <= |head|
    ensures HasNoBreak(head[start..LineEnd(head, start)])
  {
    var end := LineEnd(head, start);
    FirstAtExactly(head, CRLF, start);
    forall i: nat
      ensures !OccursAt(head[start..end], CRLF, i)
    {
      if i + 2 <= end - start {
        assert head[start..end][i..i + 2] == head[start + i..start + i + 2];
        assert !OccursAt(head, CRLF, start + i);
      }
    }
  }

  lemma JoinCons(line: string, rest: seq<string>)
    requires rest != []
    ensures JoinLines([line] + rest) == line + CRLF + JoinLines(rest)
  {
    assert ([line] + rest)[1..] == rest;
  }

  lemma CutAtBreak(head: string, start: nat, end: nat)
    requires start <= end && end + 2 <= |head| && head[end..end + 2] == CRLF
    ensures head[start..] == head[start..end] + CRLF + head[end + 2..]
  {
  }

  /** Joining the lines with CRLF gives the block back. */
  lemma {:induction false} LinesRejoin(head: string, start: nat)
    requires start <= |head|
    ensures JoinLines(LinesFrom(head, start)) == head[start..]
    decreases |head| - start
  {
    var end := LineEnd(head, start);
    var rest := LinesFrom(head, end + 2);
    if FirstAt(head, CRLF, start).None? {
      assert rest == [] && head[start..end] == head[start..];
    } else {
      LinesRejoin(head, end + 2);
      JoinCons(head[start..end], rest);
      CutAtBreak(head, start, end);
    }
  }

  /** No line has a break inside. */
  lemma {:induction false} LinesHaveNoBreak(head: string, start: nat)
    ensures forall line :: line in LinesFrom(head, start) ==> HasNoBreak(line)
    decreases |head| - start + 2
  {
    if start <= |head| {
      PieceHasNoBreak(head, start);
      LinesHaveNoBreak(head, LineEnd(head, start) + 2);
    }
  }

  predicate Names(line: string, name: string)
  {
    line != "" && FirstAt(line, ":", 0).Some? && FieldName(line, FirstAt(line, ":", 0).value) == name
  }

  function FieldValue(line: string): string
  {
    match FirstAt(line, ":", 0)
    case None => ""
    case Some(colon) => Trim(line[colon + 1..])
  }

  /** The index of the last line naming a field, if any does. */
  function LastNaming(lines: seq<string>, name: string): Option<nat>
  {
    if lines == [] then None
    else if Names(lines[|lines| - 1], name) then Some(|lines| - 1)
    else LastNaming(lines[..|lines| - 1], name)
  }

  lemma {:induction false} LastNamingExactly(lines: seq<string>, name: string)
    ensures match LastNaming(lines, name)
            case None => forall i :: 0 <= i < |lines| ==> !Names(lines[i], name)
            case Some(k) => k < |lines| && Names(lines[k], name)
                            && forall i :: k < i < |lines| ==> !Names(lines[i], name)
  {
    if lines != [] { LastNamingExactly(lines[..|lines| - 1], name); }
  }

  lemma {:induction false} AddHeadersAppend(headers: map<string, string>, lines: seq<string>, line: string)
    ensures AddHeaders(headers, lines + [line])
            == match AddHeaders(headers, lines)
               case None => None
               case Some(more) => AddHeader(more, line)
    decreases lines
  {
    if lines == [] {
      assert lines + [line] == [line];
    } else {
      assert (lines + [line])[1..] == lines[1..] + [line];
      match AddHeader(headers, lines[0])
      case None =>
      case Some(more) => AddHeadersAppend(more, lines[1..], line);
    }
  }

  /** A field has the value of the last line that names it, in any case of letters; unnamed ones are absent. */
  lemma {:induction false} LastFieldCounts(lines: seq<string>, name: string)
    requires AddHeaders(map[], lines).Some?
    ensures var headers := AddHeaders(map[], lines).value;
            match LastNaming(lines, Lower(name))
            case None => Header(headers, name) == "" && Lower(name) !in headers
            case Some(k) => k < |lines| && Lower(name) in headers && Header(headers, name) == FieldValue(lines[k])
    decreases |lines|
  {
    if lines != [] {
      var before, line := lines[..|lines| - 1], lines[|lines| - 1];
      assert before + [line] == lines;
      AddHeadersAppend(map[], before, line);
      LastFieldCounts(before, name);
      LastNamingExactly(before, Lower(name));
    }
  }

  /** Field names compare without regard to letter case. */
  lemma NamesIgnoreCase(headers: map<string, string>, a: string, b: string)
    requires SameButCase(a, b)
    ensures Header(headers, a) == Header(headers, b)
  {
    SameButCaseExactly(a, b);
  }

  lemma {:induction false} DigitsAppend(s: string, c: char, value: nat)
    requires AllDigits(s, Dec) && IsDigit(c, Dec)
    ensures Digits(s + [c], value) == Digits(s, value) * 10 + DigitValue(c)
    decreases s
  {
    if s == "" {
      assert s + [c] == [c];
    } else {
      assert (s + [c])[1..] == s[1..] + [c];
      DigitsAppend(s[1..], c, value * 10 + DigitValue(s[0]));
    }
  }

  lemma {:induction false} DigitsOfPrinted(n: nat)
    ensures Digits(Print(n, Dec), 0) == n
    decreases n
  {
    PrintReadsBack(n, Dec);
    if Over(n, Dec) != 0 {
      PrintReadsBack(Over(n, Dec), Dec);
      DigitsOfPrinted(Over(n, Dec));
      DigitsAppend(Print(Over(n, Dec), Dec), DigitChar(Last(n, Dec)), 0);
    } else {
      assert [DigitChar(n)][1..] == "";
    }
  }

  lemma {:induction false} DigitsStop(s: string, junk: string, value: nat)
    requires AllDigits(s, Dec) && (junk == "" || !IsDigit(junk[0], Dec))
    ensures Digits(s + junk, value) == Digits(s, value)
    decreases s
  {
    if s == "" {
      assert s + junk == junk;
    } else {
      assert (s + junk)[1..] == s[1..] + junk;
      DigitsStop(s[1..], junk, value * 10 + DigitValue(s[0]));
    }
  }

  /** How a length is read: digits after an optional sign, whatever follows; the number has to fit 64 signed bits. */
  lemma LengthReads(n: nat, sign: string, junk: string)
    requires sign in {"", "+", "-"} && (junk == "" || !IsDigit(junk[0], Dec))
    ensures var magnitude: int := n;
            var value := if sign == "-" then -magnitude else magnitude;
            ToInt64(sign + Print(n, Dec) + junk)
            == if -TWO_TO_THE_63 <= value < TWO_TO_THE_63 then Some(value) else None
  {
    var digits := Print(n, Dec);
    var text := sign + digits + junk;
    PrintReadsBack(n, Dec);
    assert IsDigit(digits[0], Dec);
    DigitsOfPrinted(n);
    DigitsStop(digits, junk, 0);
    Associate(sign, digits, junk);
    assert (digits + junk)[0] == digits[0];
    if sign == "" {
      assert text == digits + junk;
    } else {
      assert text[0] == sign[0] && text[1..] == digits + junk;
    }
    assert SkipSpace(text) == text;
  }

  /** Without a digit up front, sign aside, there is no length, and the request is refused. */
  lemma NoDigitNoLength(headers: map<string, string>)
    requires var text := SkipSpace(Header(headers, "content-length"));
             text != "" && !IsDigit(text[0], Dec)
             && (text[0] in {'+', '-'} ==> |text| == 1 || !IsDigit(text[1], Dec))
    ensures BodyLength(headers).None?
  {
    var text := SkipSpace(Header(headers, "content-length"));
    if text[0] in {'+', '-'} && |text| > 1 { assert text[1..][0] == text[1]; }
  }

  /** A negative length is refused. */
  lemma NegativeIsRefused(headers: map<string, string>, n: nat)
    requires n > 0 && Header(headers, "content-length") == "-" + Print(n, Dec) + ""
    ensures BodyLength(headers).None?
  {
    LengthReads(n, "-", "");
  }

  /** A plainly written Content-Length frames a body of exactly that many bytes. */
  lemma ContentLengthReads(headers: map<string, string>, n: nat)
    requires n < TWO_TO_THE_63 && Header(headers, "content-length") == Print(n, Dec)
    ensures BodyLength(headers) == Some(n)
  {
    var text := Print(n, Dec);
    PrintReadsBack(n, Dec);
    assert IsDigit(text[0], Dec);
    assert SkipSpace(text) == text;
    DigitsOfPrinted(n);
  }
}
