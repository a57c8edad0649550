/** Fields of a project file: escaping, and splitting a line at the separators that are not escaped. */
module ProjectText {
  import opened Common

  predicate Special(c: char) { c == '\\' || c == '|' || c == '\n' || c == '\r' }

  function EscapedChar(c: char): string
  {
    if c == '\n' then "\\n" else if c == '\r' then "\\r" else if Special(c) then ['\\', c] else [c]
  }

  function Escape(text: string): string
  {
    if text == "" then "" else EscapedChar(text[0]) + Escape(text[1..])
  }

  /** Line breaks become letters and separators keep their character, all behind a backslash. */
  lemma EscapesSpell(c: char)
    ensures Escape([c]) == if c == '\n' then "\\n" else if c == '\r' then "\\r"
                           else if c == '|' then "\\|" else if c == '\\' then "\\\\" else [c]
  {
    assert [c][1..] == "" && Escape([c]) == EscapedChar(c) + "";
  }

  function PlainChar(c: char): char { if c == 'n' then '\n' else if c == 'r' then '\r' else c }

  /** A backslash at the very end stands for itself. */
  function Unescape(text: string): string
  {
    if text == "" then ""
    else if text[0] == '\\' && |text| > 1 then [PlainChar(text[1])] + Unescape(text[2..])
    else [text[0]] + Unescape(text[1..])
  }

  /** The parts of a line: current is what has been read of the part so far, still escaped. */
  function Split(line: string, current: string, escaped: bool): (parts: seq<string>)
    ensures parts != []
    decreases line
  {
    if line == "" then [Unescape(current)]
    else if escaped then Split(line[1..], current + ['\\', line[0]], false)
    else if line[0] == '\\' then Split(line[1..], current, true)
    else if line[0] == '|' then [Unescape(current)] + Split(line[1..], "", false)
    else Split(line[1..], current + [line[0]], false)
  }

  function SplitEscaped(line: string): seq<string> { Split(line, "", false) }

  /** Escaped fields with separators between them. */
  function Join(fields: seq<string>): string
    requires fields != []
  {
    if |fields| == 1 then Escape(fields[0]) else Escape(fields[0]) + "|" + Join(fields[1..])
  }

  method EscapeText(text: string) returns (out: string)
    ensures out == Escape(text)
  {
    out := "";
    for i := 0 to |text|
      invariant out + Escape(text[i..]) == Escape(text)
    {
      var c := text[i];
      SuffixStep(text, i);
      Associate(out, EscapedChar(c), Escape(text[i + 1..]));
      if c == '\\' || c == '|' || c == '\n' || c == '\r' {
        out := out + ['\\', if c == '\n' then 'n' else if c == '\r' then 'r' else c];
      } else {
        out := out + [c];
      }
    }
  }

  method UnescapeText(text: string) returns (out: string)
    ensures out == Unescape(text)
  {
    out := "";
    var i := 0;
    while i < |text|
      invariant 0 <= i <= |text| && out + Unescape(text[i..]) == Unescape(text)
    {
      var c := text[i];
      SuffixStep(text, i);
      if c == '\\' && i + 1 < |text| {
        i := i + 1;
        SuffixStep(text, i);
        assert text[i - 1..][2..] == text[i + 1..];
        c := if text[i] == 'n' then '\n' else if text[i] == 'r' then '\r' else text[i];
      }
      Associate(out, [c], Unescape(text[i + 1..]));
      out := out + [c];
      i := i + 1;
    }
  }

  method SplitLine(line: string) returns (parts: seq<string>)
    ensures parts == SplitEscaped(line)
  {
    parts := [];
    var current, escaped := "", false;
    assert line[0..] == line;
    for i := 0 to |line|
      invariant parts + Split(line[i..], current, escaped) == SplitEscaped(line)
    {
      var c := line[i];
      SuffixStep(line, i);
      if escaped {
        current := current + ['\\', c];
        escaped := false;
      } else if c == '\\' {
        escaped := true;
      } else if c == '|' {
        var part := UnescapeText(current);
        Associate(parts, [part], Split(line[i + 1..], "", false));
        parts := parts + [part];
        current := "";
      } else {
        current := current + [c];
      }
    }
    var part := UnescapeText(current);
    parts := parts + [part];
  }

  /** Unescaping undoes escaping, for every text. */
  lemma {:induction false} UnescapeEscape(text: string)
    ensures Unescape(Escape(text)) == text
  {
    if text != "" {
      var rest := Escape(text[1..]);
      UnescapeEscape(text[1..]);
      if Special(text[0]) {
        assert (EscapedChar(text[0]) + rest)[2..] == rest;
      } else {
        assert ([text[0]] + rest)[1..] == rest;
      }
    }
  }

  /** One escaped character is taken whole into the part being read. */
  lemma SplitChar(c: char, tail: string, current: string)
    ensures Split(EscapedChar(c) + tail, current, false) == Split(tail, current + EscapedChar(c), false)
  {
    var line := EscapedChar(c) + tail;
    if |EscapedChar(c)| == 2 {
      assert line[1..] == [EscapedChar(c)[1]] + tail;
      assert line[1..][1..] == tail;
      assert EscapedChar(c) == ['\\', EscapedChar(c)[1]];
    } else {
      assert line[1..] == tail;
    }
  }

  lemma {:induction false} SplitText(text: string, tail: string, current: string)
    ensures Split(Escape(text) + tail, current, false) == Split(tail, current + Escape(text), false)
    decreases text
  {
    if text == "" {
      assert Escape(text) + tail == tail && current + Escape(text) == current;
    } else {
      var rest := Escape(text[1..]);
      assert Escape(text) + tail == EscapedChar(text[0]) + (rest + tail);
      SplitChar(text[0], rest + tail, current);
      SplitText(text[1..], tail, current + EscapedChar(text[0]));
      assert current + EscapedChar(text[0]) + rest == current + Escape(text);
    }
  }

  /** Splitting the join of any fields gives the fields back, whatever characters they hold. */
  lemma {:induction false} SplitJoin(fields: seq<string>)
    requires fields != []
    ensures SplitEscaped(Join(fields)) == fields
  {
    UnescapeEscape(fields[0]);
    if |fields| == 1 {
      SplitText(fields[0], "", "");
      assert Escape(fields[0]) + "" == Escape(fields[0]) && "" + Escape(fields[0]) == Escape(fields[0]);
    } else {
      var tail := "|" + Join(fields[1..]);
      SplitText(fields[0], tail, "");
      assert Join(fields) == Escape(fields[0]) + tail;
      assert "" + Escape(fields[0]) == Escape(fields[0]);
      assert tail[1..] == Join(fields[1..]);
      SplitJoin(fields[1..]);
    }
  }

  predicate OneLine(text: string)
  {
    forall i :: 0 <= i < |text| ==> text[i] != '\n' && text[i] != '\r'
  }

  lemma {:induction false} EscapeIsOneLine(text: string)
    ensures OneLine(Escape(text))
  {
    if text != "" { EscapeIsOneLine(text[1..]); }
  }

  lemma {:induction false} JoinIsOneLine(fields: seq<string>)
    requires fields != []
    ensures OneLine(Join(fields))
  {
    EscapeIsOneLine(fields[0]);
    if |fields| > 1 { JoinIsOneLine(fields[1..]); }
  }

  predicate Plain(text: string)
  {
    forall i :: 0 <= i < |text| ==> !Special(text[i])
  }

  lemma {:induction false} PlainEscape(text: string)
    requires Plain(text)
    ensures Escape(text) == text
  {
    if text != "" {
      PlainEscape(text[1..]);
      assert text == [text[0]] + text[1..];
    }
  }
}
