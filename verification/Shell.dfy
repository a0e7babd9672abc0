/**
 The launch command as one line of shell text.

 The reader below splits and unquotes a line under section 2.2 (Quoting) of the POSIX Shell Command
 Language. It gives up on every character the shell would not take literally, so reading a line
 back says that nothing in it was expanded, redirected or cut short.
 */
module Shell {
  import opened Common

  // ----- The printer -----

  predicate Plain(c: char) {
    || 'a' <= c <= 'z' || 'A' <= c <= 'Z' || '0' <= c <= '9'
    || c == '_' || c == '@' || c == '%' || c == '+' || c == '=' || c == ':' || c == ',' || c == '.'
    || c == '/' || c == '-'
  }

  predicate AllPlain(part: string) {
    forall i :: 0 <= i < |part| ==> Plain(part[i])
  }

  /** Every single quote becomes: close the quotes, an escaped quote, open them again. */
  function Escaped(part: string): string {
    if part == "" then ""
    else (if part[0] == '\'' then "'\\''" else [part[0]]) + Escaped(part[1..])
  }

  function ShellQuote(part: string): string {
    if part != "" && AllPlain(part) then part else "'" + (Escaped(part) + "'")
  }

  function Joined(parts: seq<string>): string
    requires parts != []
  {
    if |parts| == 1 then ShellQuote(parts[0])
    else ShellQuote(parts[0]) + (" " + Joined(parts[1..]))
  }

  function RenderCommand(program: string, arguments: seq<string>): string {
    Joined([program] + arguments)
  }

  // ----- The shell's reading of a line -----

  datatype Mode = Between | Bare | Single | Double

  predicate Blank(c: char) {
    c == ' ' || c == '\t'
  }

  /** Characters that must be quoted to stand for themselves, beyond quotes and blanks. */
  predicate Special(c: char) {
    || c == '|' || c == '&' || c == ';' || c == '<' || c == '>' || c == '(' || c == ')'
    || c == '$' || c == '`' || c == '\n' || c == '*' || c == '?' || c == '[' || c == ']'
    || c == '#' || c == '~' || c == '!' || c == '{' || c == '}' || c == '^'
  }

  predicate EscapedInDouble(c: char) {
    c == '$' || c == '`' || c == '"' || c == '\\' || c == '\n'
  }

  function Prepend(word: string, words: Option<seq<string>>): Option<seq<string>> {
    if words.None? then None else Some([word] + words.value)
  }

  /** The words of `text`, the current one having been read as far as `word`. */
  function Words(text: string, mode: Mode, word: string): Option<seq<string>>
    decreases |text|, mode == Between
  {
    match mode
    case Between =>
      if text == "" then Some([])
      else if Blank(text[0]) then Words(text[1..], Between, "")
      else Words(text, Bare, "")
    case Bare =>
      if text == "" then Some([word])
      else if Blank(text[0]) then Prepend(word, Words(text[1..], Between, ""))
      else if text[0] == '\'' then Words(text[1..], Single, word)
      else if text[0] == '"' then Words(text[1..], Double, word)
      else if text[0] == '\\' then
        if |text| == 1 then None
        else Words(text[2..], Bare, if text[1] == '\n' then word else word + [text[1]])
      else if Special(text[0]) then None
      else Words(text[1..], Bare, word + [text[0]])
    case Single =>
      if text == "" then None
      else if text[0] == '\'' then Words(text[1..], Bare, word)
      else Words(text[1..], Single, word + [text[0]])
    case Double =>
      if text == "" then None
      else if text[0] == '"' then Words(text[1..], Bare, word)
      else if text[0] == '$' || text[0] == '`' then None
      else if text[0] == '\\' && |text| > 1 && EscapedInDouble(text[1]) then
        Words(text[2..], Double, if text[1] == '\n' then word else word + [text[1]])
      else Words(text[1..], Double, word + [text[0]])
  }

  function ReadLine(text: string): Option<seq<string>> {
    Words(text, Between, "")
  }

  // ----- Round trip -----

  lemma StartStep(text: string)
    requires text != "" && (text[0] == '\'' || Plain(text[0]))
    ensures Words(text, Between, "") == Words(text, Bare, "")
  {
  }

  lemma OpenStep(text: string)
    requires text != "" && text[0] == '\''
    ensures Words(text, Bare, "") == Words(text[1..], Single, "")
  {
  }

  lemma PlainStep(text: string, word: string)
    requires text != "" && Plain(text[0])
    ensures Words(text, Bare, word) == Words(text[1..], Bare, word + [text[0]])
  {
  }

  lemma LiteralStep(text: string, word: string)
    requires text != "" && text[0] != '\''
    ensures Words(text, Single, word) == Words(text[1..], Single, word + [text[0]])
  {
  }

  lemma QuoteStep(text: string, word: string)
    ensures Words("'\\''" + text, Single, word) == Words(text, Single, word + "'")
  {
    var line := "'\\''" + text;
    var closed, escaped := line[1..], line[3..];
    assert closed[0] == '\\' && closed[1] == '\'' && closed[2..] == escaped;
    assert escaped == "'" + text && escaped[1..] == text;
    assert Words(line, Single, word) == Words(closed, Bare, word);
    assert Words(closed, Bare, word) == Words(escaped, Bare, word + ['\'']);
    assert Words(escaped, Bare, word + ['\'']) == Words(text, Single, word + ['\'']);
  }

  lemma {:induction false} PlainReads(part: string, tail: string, word: string)
    requires AllPlain(part)
    ensures Words(part + tail, Bare, word) == Words(tail, Bare, word + part)
  {
    if part == "" {
      assert part + tail == tail && word + part == word;
    } else {
      assert Plain(part[0]);
      assert (part + tail)[1..] == part[1..] + tail;
      assert word + part == (word + [part[0]]) + part[1..];
      PlainStep(part + tail, word);
      PlainReads(part[1..], tail, word + [part[0]]);
    }
  }

  lemma {:induction false} EscapedReads(part: string, tail: string, word: string)
    ensures Words(Escaped(part) + ("'" + tail), Single, word) == Words(tail, Bare, word + part)
  {
    var text := Escaped(part) + ("'" + tail);
    if part == "" {
      assert text == "'" + tail && text[1..] == tail && word + part == word;
    } else {
      var rest := Escaped(part[1..]) + ("'" + tail);
      assert word + part == (word + [part[0]]) + part[1..];
      if part[0] == '\'' {
        assert text == "'\\''" + rest;
        QuoteStep(rest, word);
      } else {
        assert text[1..] == rest;
        LiteralStep(text, word);
      }
      EscapedReads(part[1..], tail, word + [part[0]]);
    }
  }

  lemma BarePartReads(part: string, tail: string)
    requires part != "" && AllPlain(part)
    ensures Words(part + tail, Between, "") == Words(tail, Bare, part)
  {
    hide Words;
    assert Plain((part + tail)[0]);
    StartStep(part + tail);
    PlainReads(part, tail, "");
    assert "" + part == part;
  }

  lemma QuotedPartReads(part: string, tail: string)
    ensures Words(("'" + (Escaped(part) + "'")) + tail, Between, "") == Words(tail, Bare, part)
  {
    hide Words, Plain;
    var text := ("'" + (Escaped(part) + "'")) + tail;
    StartStep(text);
    OpenStep(text);
    assert text[1..] == Escaped(part) + ("'" + tail);
    EscapedReads(part, tail, "");
    assert "" + part == part;
  }

  /** A printed part followed by `tail` is read as that part, wherever it stands in the line. */
  lemma QuotedReads(part: string, tail: string)
    ensures Words(ShellQuote(part) + tail, Between, "") == Words(tail, Bare, part)
  {
    hide Words;
    if part != "" && AllPlain(part) {
      BarePartReads(part, tail);
    } else {
      QuotedPartReads(part, tail);
    }
  }

  lemma {:induction false} JoinedReads(parts: seq<string>)
    requires parts != []
    ensures ReadLine(Joined(parts)) == Some(parts)
  {
    if |parts| == 1 {
      QuotedReads(parts[0], "");
      assert ShellQuote(parts[0]) + "" == ShellQuote(parts[0]) && parts == [parts[0]];
    } else {
      var tail := " " + Joined(parts[1..]);
      QuotedReads(parts[0], tail);
      assert tail[1..] == Joined(parts[1..]);
      JoinedReads(parts[1..]);
      assert [parts[0]] + parts[1..] == parts;
    }
  }

  /** The printed line splits back into exactly the program and its arguments. */
  lemma CommandReadsBack(program: string, arguments: seq<string>)
    ensures ReadLine(RenderCommand(program, arguments)) == Some([program] + arguments)
  {
    JoinedReads([program] + arguments);
  }

  /** A part is printed as it is exactly when it is not empty and made of these characters. */
  lemma PrintedAsIs(part: string)
    ensures ShellQuote(part) == part
            <==> && part != ""
                 && forall c :: c in part ==>
                      || 'a' <= c <= 'z' || 'A' <= c <= 'Z' || '0' <= c <= '9'
                      || c in ['_', '@', '%', '+', '=', ':', ',', '.', '/', '-']
  {
    EscapedIsLonger(part);
    assert forall i :: 0 <= i < |part| ==> part[i] in part;
  }

  lemma {:induction false} EscapedIsLonger(part: string)
    ensures |Escaped(part)| >= |part|
  {
    if part != "" {
      EscapedIsLonger(part[1..]);
    }
  }

  // ----- The one word quoting leaves to chance -----

  predicate NameChar(c: char) {
    'a' <= c <= 'z' || 'A' <= c <= 'Z' || '0' <= c <= '9' || c == '_'
  }

  /** Section 2.9.1: a line whose first word begins with a name and '=' sets a variable instead. */
  predicate SetsVariable(text: string) {
    text != "" && !('0' <= text[0] <= '9') && text[0] != '=' && NameThenEquals(text)
  }

  predicate NameThenEquals(text: string) {
    text != "" && (text[0] == '=' || (NameChar(text[0]) && NameThenEquals(text[1..])))
  }

  lemma {:induction false} NameEndsInside(part: string, tail: string)
    requires tail == "" || tail[0] == ' '
    ensures NameThenEquals(part + tail) <==> NameThenEquals(part)
  {
    if part == "" {
      assert part + tail == tail;
    } else {
      assert (part + tail)[1..] == part[1..] + tail;
      NameEndsInside(part[1..], tail);
    }
  }

  /**
   The line sets a variable exactly when the program's name is printed bare and has the shape of an
   assignment, such as "A=b": '=' is among the characters the printer leaves unquoted.
   */
  lemma LineSetsVariableIff(program: string, arguments: seq<string>)
    ensures SetsVariable(RenderCommand(program, arguments))
            <==> AllPlain(program) && SetsVariable(program)
  {
    var parts := [program] + arguments;
    var tail := if arguments == [] then "" else " " + Joined(parts[1..]);
    assert Joined(parts) == ShellQuote(program) + tail;
    NameEndsInside(ShellQuote(program), tail);
  }

  lemma AssignmentShapedProgram()
    ensures SetsVariable(RenderCommand("A=b", []))
  {
    LineSetsVariableIff("A=b", []);
    assert NameThenEquals("A=b"[1..]);
  }
}
