/** A request written out in full is parsed back, or refused as its framing calls for. */
module McpRequests {
  import opened Common
  import opened Text
  import opened Numerals
  import opened McpHttp
  import opened McpReceive
  import opened McpHeaders

  // One field line: a name, blanks, a value, blanks.
  datatype Field = Field(name: string, before: string, value: string, after: string)

  predicate AllBlank(s: string) { forall i :: 0 <= i < |s| ==> Blank(s[i]) }

  /** No blank at either end. */
  predicate Trimmed(s: string) { s != "" ==> !Blank(s[0]) && !Blank(s[|s| - 1]) }

  predicate NoReturn(s: string) { '\r' !in s }

  predicate PlainField(f: Field)
  {
    && f.name != "" && ':' !in f.name && NoReturn(f.name) && Trimmed(f.name)
    && AllBlank(f.before) && AllBlank(f.after) && Trimmed(f.value) && NoReturn(f.value)
  }

  function LineOf(f: Field): string { f.name + ":" + (f.before + f.value + f.after) }

  function LinesOf(fields: seq<Field>): seq<string>
  {
    if fields == [] then [] else [LineOf(fields[0])] + LinesOf(fields[1..])
  }

  /** The fields by lower-case name, later ones replacing earlier. */
  function Gathered(headers: map<string, string>, fields: seq<Field>): map<string, string>
    decreases fields
  {
    if fields == [] then headers else Gathered(headers[Lower(fields[0].name) := fields[0].value], fields[1..])
  }

  // ----- Trimming -----

  lemma {:induction false} TrimLeftDrops(blanks: string, text: string)
    requires AllBlank(blanks) && (text != "" ==> !Blank(text[0]))
    ensures TrimLeft(blanks + text) == text
    decreases blanks
  {
    if blanks == "" {
      assert blanks + text == text;
    } else {
      assert (blanks + text)[1..] == blanks[1..] + text;
      TrimLeftDrops(blanks[1..], text);
    }
  }

  lemma {:induction false} TrimRightDrops(text: string, blanks: string)
    requires AllBlank(blanks) && (text != "" ==> !Blank(text[|text| - 1]))
    ensures TrimRight(text + blanks) == text
    decreases blanks
  {
    if blanks == "" {
      assert text + blanks == text;
    } else {
      var all := text + blanks;
      assert all[..|all| - 1] == text + blanks[..|blanks| - 1];
      TrimRightDrops(text, blanks[..|blanks| - 1]);
    }
  }

  lemma {:induction false} TrimRightOfBlanks(blanks: string)
    requires AllBlank(blanks)
    ensures TrimRight(blanks) == ""
    decreases blanks
  {
    if blanks != "" { TrimRightOfBlanks(blanks[..|blanks| - 1]); }
  }

  lemma {:induction false} TrimLeftOfBlanks(blanks: string)
    requires AllBlank(blanks)
    ensures TrimLeft(blanks) == ""
    decreases blanks
  {
    if blanks != "" { TrimLeftOfBlanks(blanks[1..]); }
  }

  /** Blanks around a text are dropped, and nothing else. */
  lemma TrimDrops(before: string, text: string, after: string)
    requires AllBlank(before) && AllBlank(after) && Trimmed(text)
    ensures Trim(before + text + after) == text
  {
    if text == "" {
      assert before + text + after == before + after && AllBlank(before + after);
      TrimLeftOfBlanks(before + after);
    } else {
      Associate(before, text, after);
      TrimLeftDrops(before, text + after);
      TrimRightDrops(text, after);
    }
  }

  // ----- First occurrences -----

  lemma {:induction false} FirstCharAt(s: string, c: char, from: nat, at: nat)
    requires from <= at < |s| && s[at] == c && forall i :: from <= i < at ==> s[i] != c
    ensures FirstAt(s, [c], from) == Some(at)
    decreases at - from
  {
    assert s[from..from + 1] == [s[from]];
    if from < at { FirstCharAt(s, c, from + 1, at); }
  }

  lemma {:induction false} NoCharFrom(s: string, c: char, from: nat)
    requires forall i :: from <= i < |s| ==> s[i] != c
    ensures FirstAt(s, [c], from).None?
    decreases |s| - from
  {
    if from < |s| {
      assert s[from..from + 1] == [s[from]];
      NoCharFrom(s, c, from + 1);
    }
  }

  // ----- The request line -----

  /** Verb and target are what stands before and after the only space. */
  lemma ShortLineReads(verb: string, target: string)
    requires ' ' !in verb && ' ' !in target
    ensures RequestLine(verb + " " + target) == Some(Request(verb, target, map[], ""))
  {
    var line := verb + " " + target;
    FirstCharAt(line, ' ', 0, |verb|);
    NoCharFrom(line, ' ', |verb| + 1);
    assert line[..|verb|] == verb && line[|verb| + 1..] == target;
  }

  lemma TwoSpaces(line: string, first: nat, second: nat)
    requires first < second < |line| && line[first] == ' ' && line[second] == ' '
    requires ' ' !in line[..first] && ' ' !in line[first + 1..second]
    ensures RequestLine(line) == Some(Request(line[..first], line[first + 1..second], map[], ""))
  {
    forall i | 0 <= i < first ensures line[i] != ' ' { assert line[..first][i] == line[i]; }
    forall i | first < i < second ensures line[i] != ' ' { assert line[first + 1..second][i - first - 1] == line[i]; }
    FirstCharAt(line, ' ', 0, first);
    FirstCharAt(line, ' ', first + 1, second);
  }

  /** Or before the first space and between it and the second, whatever follows. */
  lemma RequestLineReads(verb: string, target: string, rest: string)
    requires ' ' !in verb && ' ' !in target
    ensures RequestLine(verb + " " + target + " " + rest) == Some(Request(verb, target, map[], ""))
  {
    var line, second := verb + " " + target + " " + rest, |verb| + 1 + |target|;
    assert line[..|verb|] == verb && line[|verb| + 1..second] == target;
    assert line[|verb|] == ' ' && line[second] == ' ';
    TwoSpaces(line, |verb|, second);
  }

  /** A line without a space is refused. */
  lemma SpacelessIsRefused(line: string)
    requires ' ' !in line
    ensures RequestLine(line).None?
  {
    NoCharFrom(line, ' ', 0);
  }

  // ----- The fields -----

  lemma FieldReads(headers: map<string, string>, f: Field)
    requires PlainField(f)
    ensures AddHeader(headers, LineOf(f)) == Some(headers[Lower(f.name) := f.value])
  {
    var line := LineOf(f);
    FirstCharAt(line, ':', 0, |f.name|);
    assert line[..|f.name|] == f.name && line[|f.name| + 1..] == f.before + f.value + f.after;
    TrimDrops(f.before, f.value, f.after);
    TrimDrops("", f.name, "");
    assert "" + f.name + "" == f.name;
  }

  ghost predicate PlainFields(fields: seq<Field>) { forall f :: f in fields ==> PlainField(f) }

  lemma {:induction false} FieldsRead(headers: map<string, string>, fields: seq<Field>)
    requires PlainFields(fields)
    ensures AddHeaders(headers, LinesOf(fields)) == Some(Gathered(headers, fields))
    decreases fields
  {
    if fields != [] {
      FieldReads(headers, fields[0]);
      FieldsRead(headers[Lower(fields[0].name) := fields[0].value], fields[1..]);
      assert LinesOf(fields)[1..] == LinesOf(fields[1..]);
    }
  }

  // ----- Lines and the end of the block -----

  /** Lines that are not empty and hold no carriage return. */
  ghost predicate PlainLines(lines: seq<string>)
  {
    forall i :: 0 <= i < |lines| ==> lines[i] != "" && NoReturn(lines[i])
  }

  lemma {:induction false} FieldLinesPlain(fields: seq<Field>)
    requires PlainFields(fields)
    ensures PlainLines(LinesOf(fields)) && |LinesOf(fields)| == |fields|
    decreases fields
  {
    if fields != [] {
      var f := fields[0];
      assert PlainField(f);
      BlankHasNoReturn(f.before);
      BlankHasNoReturn(f.after);
      FieldLinesPlain(fields[1..]);
    }
  }

  lemma BlankHasNoReturn(s: string)
    requires AllBlank(s)
    ensures NoReturn(s)
  {
    forall i | 0 <= i < |s| ensures s[i] != '\r' {
    }
  }

  lemma {:induction false} BreakAt(s: string, from: nat, at: nat)
    requires from <= at && at + 2 <= |s| && s[at..at + 2] == CRLF && forall i :: from <= i < at ==> s[i] != '\r'
    ensures FirstAt(s, CRLF, from) == Some(at)
    decreases at - from
  {
    if from < at {
      assert s[from..from + 2][0] == s[from];
      BreakAt(s, from + 1, at);
    }
  }

  lemma {:induction false} NoBreakFrom(s: string, from: nat)
    requires forall i :: from <= i < |s| ==> s[i] != '\r'
    ensures FirstAt(s, CRLF, from).None?
    decreases |s| - from
  {
    if from + 2 <= |s| {
      assert s[from..from + 2][0] == s[from];
      NoBreakFrom(s, from + 1);
    }
  }

  lemma LastLine(prefix: string, line: string)
    requires NoReturn(line)
    ensures LinesFrom(prefix + line, |prefix|) == [line]
  {
    var head, start := prefix + line, |prefix|;
    assert forall i :: start <= i < |head| ==> head[i] == line[i - start];
    NoBreakFrom(head, start);
    assert LineEnd(head, start) == |head| && head[start..|head|] == line;
    assert LinesFrom(head, |head| + 2) == [];
  }

  lemma NoReturnWithin(head: string, start: nat, end: nat)
    requires start <= end <= |head| && NoReturn(head[start..end])
    ensures forall i :: start <= i < end ==> head[i] != '\r'
  {
    forall i | start <= i < end ensures head[i] != '\r' {
      assert head[start..end][i - start] == head[i];
    }
  }

  lemma LineUpTo(head: string, start: nat, end: nat)
    requires start <= end <= |head| && FirstAt(head, CRLF, start) == Some(end)
    ensures LinesFrom(head, start) == [head[start..end]] + LinesFrom(head, end + 2)
  {
  }

  lemma LineAt(head: string, start: nat, end: nat)
    requires start <= end && end + 2 <= |head| && head[end..end + 2] == CRLF && NoReturn(head[start..end])
    ensures LinesFrom(head, start) == [head[start..end]] + LinesFrom(head, end + 2)
  {
    NoReturnWithin(head, start, end);
    BreakAt(head, start, end);
    LineUpTo(head, start, end);
  }

  lemma Pieced(prefix: string, line: string, rest: string)
    ensures var head := prefix + line + CRLF + rest;
            var end := |prefix| + |line|;
            head[|prefix|..end] == line && head[end..end + 2] == CRLF
  {
  }

  /** From start on the text is these lines with breaks between them. */
  predicate LaidOut(head: string, lines: seq<string>, start: nat)
    requires lines != []
    decreases lines
  {
    var end := start + |lines[0]|;
    if |lines| == 1 then end == |head| && head[start..end] == lines[0]
    else end + 2 <= |head| && head[start..end] == lines[0] && head[end..end + 2] == CRLF
         && LaidOut(head, lines[1..], end + 2)
  }

  lemma {:induction false} JoinIsLaidOut(prefix: string, lines: seq<string>)
    requires lines != []
    ensures LaidOut(prefix + JoinLines(lines), lines, |prefix|)
    decreases lines
  {
    if |lines| > 1 {
      JoinedRest(prefix, lines);
      Pieced(prefix, lines[0], JoinLines(lines[1..]));
      JoinIsLaidOut(prefix + lines[0] + CRLF, lines[1..]);
    }
  }

  lemma {:induction false} LaidOutReads(head: string, lines: seq<string>, start: nat)
    requires lines != [] && PlainLines(lines) && LaidOut(head, lines, start)
    ensures LinesFrom(head, start) == lines
    decreases lines
  {
    var end := start + |lines[0]|;
    assert NoReturn(lines[0]);
    if |lines| == 1 {
      assert head == head[..start] + lines[0];
      LastLine(head[..start], lines[0]);
      assert lines == [lines[0]];
    } else {
      LineAt(head, start, end);
      PlainRest(lines);
      LaidOutReads(head, lines[1..], end + 2);
    }
  }

  /** Lines joined with CRLF are read back as those lines. */
  lemma LinesReadBack(lines: seq<string>)
    requires lines != [] && PlainLines(lines)
    ensures LinesFrom(JoinLines(lines), 0) == lines
  {
    JoinIsLaidOut("", lines);
    assert "" + JoinLines(lines) == JoinLines(lines);
    LaidOutReads(JoinLines(lines), lines, 0);
  }

  lemma PlainRest(lines: seq<string>)
    requires |lines| > 1 && PlainLines(lines)
    ensures PlainLines(lines[1..]) && lines == [lines[0]] + lines[1..]
  {
  }

  lemma JoinedRest(prefix: string, lines: seq<string>)
    requires |lines| > 1
    ensures prefix + JoinLines(lines) == (prefix + lines[0] + CRLF) + JoinLines(lines[1..])
  {
  }

  /** The terminator does not occur inside the block, nor across its end. */
  lemma {:induction false} BlockEndsOnce(lines: seq<string>, tail: string, i: nat)
    requires lines != [] && PlainLines(lines) && i < |JoinLines(lines)|
    ensures !OccursAt(JoinLines(lines) + HEAD_END + tail, HEAD_END, i)
    decreases lines
  {
    var first := lines[0];
    var text := JoinLines(lines) + HEAD_END + tail;
    if i < |first| {
      assert text[i] == first[i];
      NotReturnAt(text, i);
    } else {
      var rest := JoinLines(lines[1..]) + HEAD_END + tail;
      assert PlainLines(lines[1..]);
      assert text == first + CRLF + rest;
      FirstOfBlock(lines[1..], tail);
      if i == |first| {
        assert text[i + 2] == rest[0];
        NotThirdAt(text, i);
      } else if i == |first| + 1 {
        assert text[i] == '\n';
        NotReturnAt(text, i);
      } else {
        BlockEndsOnce(lines[1..], tail, i - |first| - 2);
        ShiftOccurs(first + CRLF, rest, i - |first| - 2);
      }
    }
  }

  lemma NotReturnAt(text: string, i: nat)
    requires i < |text| && text[i] != '\r'
    ensures !OccursAt(text, HEAD_END, i)
  {
    if i + 4 <= |text| { assert text[i..i + 4][0] == text[i]; }
  }

  lemma NotThirdAt(text: string, i: nat)
    requires i + 2 < |text| && text[i + 2] != '\r'
    ensures !OccursAt(text, HEAD_END, i)
  {
    if i + 4 <= |text| { assert text[i..i + 4][2] == text[i + 2]; }
  }

  lemma ShiftOccurs(prefix: string, rest: string, i: nat)
    ensures OccursAt(prefix + rest, HEAD_END, |prefix| + i) == OccursAt(rest, HEAD_END, i)
  {
    if i + 4 <= |rest| {
      assert (prefix + rest)[|prefix| + i..|prefix| + i + 4] == rest[i..i + 4];
    }
  }

  lemma FirstOfBlock(lines: seq<string>, tail: string)
    requires lines != [] && PlainLines(lines)
    ensures var rest := JoinLines(lines) + HEAD_END + tail; rest != "" && rest[0] != '\r'
  {
    assert lines[0][0] in lines[0];
    assert (JoinLines(lines) + HEAD_END + tail)[0] == lines[0][0];
  }

  lemma BlockEndsAt(lines: seq<string>, tail: string)
    requires lines != [] && PlainLines(lines)
    ensures HeaderEnd(JoinLines(lines) + HEAD_END + tail) == Some(|JoinLines(lines)|)
  {
    var head := JoinLines(lines);
    var text := head + HEAD_END + tail;
    FirstAtExactly(text, HEAD_END, 0);
    assert text[|head|..|head| + 4] == HEAD_END;
    assert OccursAt(text, HEAD_END, |head|);
    forall i: nat | i < |head| ensures !OccursAt(text, HEAD_END, i) {
      BlockEndsOnce(lines, tail, i);
    }
  }

  // ----- Blocks that do not read -----

  predicate Colonless(line: string) { line != "" && ':' !in line }

  lemma ColonlessExactly(headers: map<string, string>, line: string)
    ensures AddHeader(headers, line).None? <==> Colonless(line)
  {
    if ':' in line {
      FirstAtExactly(line, ":", 0);
      var i: nat :| i < |line| && line[i] == ':';
      assert line[i..i + 1] == ":" && OccursAt(line, ":", i);
    } else {
      NoCharFrom(line, ':', 0);
    }
  }

  /** Field lines are refused exactly when one that is not empty has no colon. */
  lemma {:induction false} FieldsRefusedExactly(headers: map<string, string>, lines: seq<string>)
    ensures AddHeaders(headers, lines).None? <==> exists line :: line in lines && Colonless(line)
    decreases lines
  {
    if lines != [] {
      ColonlessExactly(headers, lines[0]);
      assert forall line :: line in lines <==> line == lines[0] || line in lines[1..];
      match AddHeader(headers, lines[0])
      case None =>
      case Some(more) => FieldsRefusedExactly(more, lines[1..]);
    }
  }

  /** A header block is refused with 400 for a first line without a space or a field line without a colon. */
  lemma BadLinesAreRefused(lines: seq<string>, tail: string)
    requires lines != [] && PlainLines(lines)
    requires ' ' !in lines[0] || exists line :: line in lines[1..] && Colonless(line)
    ensures ParseOf(JoinLines(lines) + HEAD_END + tail) == Malformed(400)
  {
    ParseSplits(lines, tail);
    LinesReadBack(lines);
    if ' ' !in lines[0] { SpacelessIsRefused(lines[0]); }
    FieldsRefusedExactly(map[], lines[1..]);
  }

  // ----- The whole request -----

  function RequestText(verb: string, target: string, version: string, fields: seq<Field>, body: string): string
  {
    JoinLines([verb + " " + target + " " + version] + LinesOf(fields)) + HEAD_END + body
  }

  /** Plain text for a request line: no space inside verb and target, no line break anywhere. */
  predicate PlainStart(verb: string, target: string, version: string)
  {
    ' ' !in verb && ' ' !in target && NoReturn(verb) && NoReturn(target) && NoReturn(version)
  }

  lemma HeadReads(verb: string, target: string, version: string, fields: seq<Field>)
    requires PlainStart(verb, target, version) && PlainFields(fields)
    ensures var lines := [verb + " " + target + " " + version] + LinesOf(fields);
            && PlainLines(lines)
            && ReadHead(JoinLines(lines)) == Frame(Request(verb, target, Gathered(map[], fields), ""))
  {
    var first := verb + " " + target + " " + version;
    var lines := [first] + LinesOf(fields);
    RequestLineReads(verb, target, version);
    FieldsRead(map[], fields);
    FieldLinesPlain(fields);
    assert PlainLines(lines);
    LinesReadBack(lines);
    assert lines[1..] == LinesOf(fields);
  }

  /** The verdict on a request whose fields frame a body of this length. */
  function FramedVerdict(request: Request, length: nat, total: nat): Parse
  {
    if length > BODY_LIMIT then Malformed(413)
    else if FirstAt(Lower(Header(request.headers, "transfer-encoding")), "chunked", 0).Some? then Malformed(411)
    else Complete(request, total)
  }

  lemma ParseSplits(lines: seq<string>, tail: string)
    requires lines != [] && PlainLines(lines)
    ensures var text := JoinLines(lines) + HEAD_END + tail;
            |text| >= |JoinLines(lines)| + 4
            && ParseOf(text) == Finish(text, |JoinLines(lines)|, ReadHead(JoinLines(lines)))
  {
    BlockEndsAt(lines, tail);
    assert (JoinLines(lines) + HEAD_END + tail)[..|JoinLines(lines)|] == JoinLines(lines);
  }

  lemma BodyIsTaken(head: string, body: string, more: string, request: Request)
    ensures Finish(head + HEAD_END + (body + more), |head|, GoodHead(request, |body|))
            == Complete(request.(body := body), |head| + 4 + |body|)
  {
    var text := head + HEAD_END + (body + more);
    assert text[|head| + 4..|head| + 4 + |body|] == body;
  }

  /**
   A request written out with a Content-Length that tells the body's length is parsed back as it was written: the same
   verb and target, each field once under its lower-case name, the body, and the whole text consumed. Only a body over
   4 MiB (413) or a chunked Transfer-Encoding (411) is refused instead. What follows the request does not matter.
   */
  lemma WrittenIsParsed(verb: string, target: string, version: string, fields: seq<Field>, body: string, more: string)
    requires PlainStart(verb, target, version) && PlainFields(fields)
    requires Header(Gathered(map[], fields), "content-length") == Print(|body|, Dec) && |body| < TWO_TO_THE_63
    ensures var text := RequestText(verb, target, version, fields, body);
            ParseOf(text + more)
            == FramedVerdict(Request(verb, target, Gathered(map[], fields), body), |body|, |text|)
  {
    var lines := [verb + " " + target + " " + version] + LinesOf(fields);
    var request := Request(verb, target, Gathered(map[], fields), "");
    HeadReads(verb, target, version, fields);
    ParseSplits(lines, body + more);
    Associate(JoinLines(lines) + HEAD_END, body, more);
    BodyIsTaken(JoinLines(lines), body, more, request);
    ContentLengthReads(request.headers, |body|);
  }

  /** Until the last byte of the body is in, the same request is incomplete. */
  lemma CutShortIsIncomplete(verb: string, target: string, version: string, fields: seq<Field>, body: string, k: nat)
    requires PlainStart(verb, target, version) && PlainFields(fields)
    requires Header(Gathered(map[], fields), "content-length") == Print(|body|, Dec) && |body| < TWO_TO_THE_63
    requires var request := Request(verb, target, Gathered(map[], fields), body);
             FramedVerdict(request, |body|, 0).Complete?
    requires var text := RequestText(verb, target, version, fields, body);
             k < |text| && |text| - |body| - 1 <= HEADER_LIMIT
    ensures ParseOf(RequestText(verb, target, version, fields, body)[..k]).Incomplete?
  {
    var text := RequestText(verb, target, version, fields, body);
    WrittenIsParsed(verb, target, version, fields, body, "");
    assert text + "" == text;
    ShorterPrefixesAreIncomplete(text);
    HeadReads(verb, target, version, fields);
    BlockEndsAt([verb + " " + target + " " + version] + LinesOf(fields), body);
  }
}
