/**
 The incremental HTTP request parser and the receive loop that feeds it. The parser is called again on the
 whole buffer whenever more bytes arrive; text is a sequence of bytes written as characters.
 */
module McpHttp {
  import opened Common
  import opened Text
  import opened Numerals

  const HEADER_LIMIT := 64 * 1024
  const BODY_LIMIT := 4 * 1024 * 1024
  const RECEIVE_SIZE := 8192
  const CRLF := "\r\n"
  const HEAD_END := "\r\n\r\n"

  datatype Request = Request(verb: string, target: string, headers: map<string, string>, body: string)

  datatype Parse =
    | Incomplete
    | Malformed(status: int)
    | Complete(request: Request, consumed: nat)

  // What a header block says: an error to answer with, or a request and how long its body is.
  datatype Head = BadHead(status: int) | GoodHead(request: Request, length: nat)

  // --- Text ----------------------------------------------------------------------------------------

  /** The first place at or after from where the text occurs. */
  function FirstAt(s: string, text: string, from: nat): (at: Option<nat>)
    ensures at.Some? ==> from <= at.value && at.value + |text| <= |s| && s[at.value..at.value + |text|] == text
    decreases |s| - from
  {
    if from + |text| > |s| then None
    else if s[from..from + |text|] == text then Some(from)
    else FirstAt(s, text, from + 1)
  }

  predicate Blank(c: char) { c == ' ' || c == '\t' }

  function TrimLeft(s: string): string
  {
    if s != "" && Blank(s[0]) then TrimLeft(s[1..]) else s
  }

  function TrimRight(s: string): string
  {
    if s != "" && Blank(s[|s| - 1]) then TrimRight(s[..|s| - 1]) else s
  }

  function Trim(s: string): string { TrimRight(TrimLeft(s)) }

  /** The value of the leading digits, if there are any. */
  function Digits(s: string, value: nat): nat
    decreases s
  {
    if s != "" && IsDigit(s[0], Dec) then Digits(s[1..], value * 10 + DigitValue(s[0])) else value
  }

  /** The library's signed 64-bit conversion: leading white space and a sign are accepted, and so is trailing junk. */
  function ToInt64(s: string): Option<int>
  {
    var text := SkipSpace(s);
    var negative := text != "" && text[0] == '-';
    var digits := if text != "" && (text[0] == '-' || text[0] == '+') then text[1..] else text;
    if digits == "" || !IsDigit(digits[0], Dec) then None
    else
      var magnitude: int := Digits(digits, 0);
      var value := if negative then -magnitude else magnitude;
      if -TWO_TO_THE_63 <= value < TWO_TO_THE_63 then Some(value) else None
  }

  // --- Header block --------------------------------------------------------------------------------

  function LineEnd(head: string, start: nat): (end: nat)
    requires start <= |head|
    ensures start <= end <= |head|
  {
    match FirstAt(head, CRLF, start)
    case None => |head|
    case Some(end) => end
  }

  /** The lines from a position on, separated by CRLF. */
  function LinesFrom(head: string, start: nat): (lines: seq<string>)
    ensures start <= |head| ==> lines != []
    decreases |head| - start + 2
  {
    if start > |head| then []
    else [head[start..LineEnd(head, start)]] + LinesFrom(head, LineEnd(head, start) + 2)
  }

  /** One header line: empty lines are skipped, a later field replaces an earlier one of the same name. */
  function AddHeader(headers: map<string, string>, line: string): Option<map<string, string>>
  {
    if line == "" then Some(headers)
    else match FirstAt(line, ":", 0)
      case None => None
      case Some(colon) => Some(headers[FieldName(line, colon) := Trim(line[colon + 1..])])
  }

  function AddHeaders(headers: map<string, string>, lines: seq<string>): Option<map<string, string>>
    decreases lines
  {
    if lines == [] then Some(headers)
    else match AddHeader(headers, lines[0])
      case None => None
      case Some(more) => AddHeaders(more, lines[1..])
  }

  function FieldName(line: string, colon: nat): string
    requires colon <= |line|
  {
    Lower(Trim(line[..colon]))
  }

  function Header(headers: map<string, string>, name: string): string
  {
    if Lower(name) in headers then headers[Lower(name)] else ""
  }

  /** Method and target of the first line; without a space it is malformed. */
  function RequestLine(line: string): Option<Request>
  {
    match FirstAt(line, " ", 0)
    case None => None
    case Some(s) =>
      match FirstAt(line, " ", s + 1)
      case None => Some(Request(line[..s], line[s + 1..], map[], ""))
      case Some(e) => Some(Request(line[..s], line[s + 1..e], map[], ""))
  }

  function BodyLength(headers: map<string, string>): Option<nat>
  {
    var value := Header(headers, "content-length");
    if value == "" then Some(0)
    else match ToInt64(value)
      case None => None
      case Some(n) => if n < 0 then None else Some(n)
  }

  /** The framing decision: the length, its limit, and the encoding that is refused. */
  function Frame(request: Request): Head
  {
    match BodyLength(request.headers)
    case None => BadHead(400)
    case Some(n) =>
      if n > BODY_LIMIT then BadHead(413)
      else if FirstAt(Lower(Header(request.headers, "transfer-encoding")), "chunked", 0).Some? then BadHead(411)
      else GoodHead(request, n)
  }

  /** The request a header block spells out, before its framing is looked at. */
  function Fields(lines: seq<string>): Option<Request>
    requires lines != []
  {
    match RequestLine(lines[0])
    case None => None
    case Some(request) =>
      match AddHeaders(map[], lines[1..])
      case None => None
      case Some(headers) => Some(request.(headers := headers))
  }

  function ReadHead(head: string): Head
  {
    match Fields(LinesFrom(head, 0))
    case None => BadHead(400)
    case Some(request) => Frame(request)
  }

  /** The verdict once the header block, h bytes long, has been read. */
  function Finish(buffer: string, h: nat, head: Head): Parse
    requires h + 4 <= |buffer|
  {
    match head
    case BadHead(status) => Malformed(status)
    case GoodHead(request, length) =>
      if |buffer| < h + 4 + length then Incomplete
      else Complete(request.(body := buffer[h + 4..h + 4 + length]), h + 4 + length)
  }

  function ParseOf(buffer: string): Parse
  {
    match FirstAt(buffer, HEAD_END, 0)
    case None => if |buffer| > HEADER_LIMIT then Malformed(431) else Incomplete
    case Some(h) => Finish(buffer, h, ReadHead(buffer[..h]))
  }

  method SplitRequestLine(line: string) returns (request: Option<Request>)
    ensures request == RequestLine(line)
  {
    var methodEnd := FirstAt(line, " ", 0);
    if methodEnd.None? {
      return None;
    }
    var targetEnd := FirstAt(line, " ", methodEnd.value + 1);
    var target := if targetEnd.Some? then line[methodEnd.value + 1..targetEnd.value] else line[methodEnd.value + 1..];
    return Some(Request(line[..methodEnd.value], target, map[], ""));
  }

  lemma FirstLine(headers: map<string, string>, head: string, start: nat)
    requires start <= |head|
    ensures var line := head[start..LineEnd(head, start)];
            && LinesFrom(head, start)[0] == line
            && LinesFrom(head, start)[1..] == LinesFrom(head, LineEnd(head, start) + 2)
            && AddHeaders(headers, LinesFrom(head, start))
               == match AddHeader(headers, line)
                  case None => None
                  case Some(more) => AddHeaders(more, LinesFrom(head, LineEnd(head, start) + 2))
  {
    var line, rest := head[start..LineEnd(head, start)], LinesFrom(head, LineEnd(head, start) + 2);
    assert LinesFrom(head, start) == [line] + rest;
    assert ([line] + rest)[1..] == rest;
  }

  /** The header lines from a position on, stopping at the first that does not read. */
  method ReadFieldLines(head: string, start: nat) returns (fields: Option<map<string, string>>)
    ensures fields == AddHeaders(map[], LinesFrom(head, start))
  {
    var headers: map<string, string> := map[];
    var lineStart := start;
    while lineStart <= |head|
      invariant AddHeaders(map[], LinesFrom(head, start)) == AddHeaders(headers, LinesFrom(head, lineStart))
      decreases |head| - lineStart + 2
    {
      FirstLine(headers, head, lineStart);
      var lineEnd := LineEnd(head, lineStart);
      var added := AddHeader(headers, head[lineStart..lineEnd]);
      if added.None? {
        return None;
      }
      headers := added.value;
      lineStart := lineEnd + 2;
    }
    return Some(headers);
  }

  method ReadLines(head: string) returns (read: Option<Request>)
    ensures read == Fields(LinesFrom(head, 0))
  {
    var lineEnd := LineEnd(head, 0);
    FirstLine(map[], head, 0);
    var request := SplitRequestLine(head[0..lineEnd]);
    if request.None? {
      return None;
    }
    var headers := ReadFieldLines(head, lineEnd + 2);
    match headers
    case None => return None;
    case Some(fields) => return Some(request.value.(headers := fields));
  }

  method ReadHeaderBlock(head: string) returns (verdict: Head)
    ensures verdict == ReadHead(head)
  {
    var request := ReadLines(head);
    match request
    case None => return BadHead(400);
    case Some(request) => return Frame(request);
  }

  method ParseHttpRequest(buffer: string) returns (parse: Parse)
    ensures parse == ParseOf(buffer)
  {
    var headerEnd := FirstAt(buffer, HEAD_END, 0);
    if headerEnd.None? {
      return if |buffer| > HEADER_LIMIT then Malformed(431) else Incomplete;
    }
    var verdict := ReadHeaderBlock(buffer[..headerEnd.value]);
    match verdict
    case BadHead(status) => return Malformed(status);
    case GoodHead(request, length) =>
      var bodyStart := headerEnd.value + 4;
      if |buffer| < bodyStart + length {
        return Incomplete;
      }
      return Complete(request.(body := buffer[bodyStart..bodyStart + length]), bodyStart + length);
  }
}
