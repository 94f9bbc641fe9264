/** Reading BIRD's control-socket replies. A stream is the bytes still to be read, one character each. */
module Birdc {
  import opened Wrappers

  datatype Reply = Reply(code: nat, text: string)

  // ---- Lines ----

  predicate IsDigit(c: char) {
    '0' <= c <= '9'
  }

  function DigitOf(c: char): nat
    requires IsDigit(c)
  {
    c as nat - '0' as nat
  }

  /** The code a line starts with. */
  function LineCode(line: string): Option<nat> {
    if |line| >= 5 && IsDigit(line[0]) && IsDigit(line[1]) && IsDigit(line[2]) && IsDigit(line[3])
    then Some(1000 * DigitOf(line[0]) + 100 * DigitOf(line[1]) + 10 * DigitOf(line[2]) + DigitOf(line[3]))
    else None
  }

  /** A code and a space: the last line of a reply. */
  predicate IsFinalLine(line: string) {
    |line| > 4 && line[4] == ' ' && LineCode(line).Some?
  }

  function StripCodePrefix(line: string): string {
    if |line| > 4 && (line[4] == ' ' || line[4] == '-') && LineCode(line).Some? then line[5..]
    else if line != "" && line[0] == ' ' then line[1..]
    else line
  }

  /** The next line, with its newline if the stream does not end first. */
  function LineLength(stream: string): (n: nat)
    ensures n <= |stream|
    ensures stream != "" ==> n > 0
  {
    if stream == "" then 0
    else if stream[0] == '\n' then 1
    else 1 + LineLength(stream[1..])
  }

  /** A line ends behind the first newline, or where the stream ends. */
  lemma {:induction false} LineEndsAtNewline(stream: string)
    ensures forall k :: 0 <= k < LineLength(stream) - 1 ==> stream[k] != '\n'
    ensures LineLength(stream) < |stream| ==> LineLength(stream) > 0 && stream[LineLength(stream) - 1] == '\n'
  {
    if stream == "" || stream[0] == '\n' {
    } else {
      var rest := stream[1..];
      LineEndsAtNewline(rest);
      assert forall k :: 0 < k < |stream| ==> stream[k] == rest[k - 1];
    }
  }

  /** What a line is, by its first five characters. */
  lemma LinesByForm()
    ensures LineCode("0013 up\n") == Some(13) && IsFinalLine("0013 up\n") && StripCodePrefix("0013 up\n") == "up\n"
    ensures LineCode("1002-up\n") == Some(1002) && !IsFinalLine("1002-up\n") && StripCodePrefix("1002-up\n") == "up\n"
    ensures LineCode(" up\n") == None && !IsFinalLine(" up\n") && StripCodePrefix(" up\n") == "up\n"
    ensures LineCode("up all\n") == None && StripCodePrefix("up all\n") == "up all\n"
  {}

  method ReadLine(stream: string) returns (line: string, rest: string)
    ensures line + rest == stream && (stream != "" ==> line != "")
    ensures forall k :: 0 <= k < |line| - 1 ==> line[k] != '\n'
    ensures rest != "" ==> line != "" && line[|line| - 1] == '\n'
    ensures line == stream[..LineLength(stream)] && rest == stream[LineLength(stream)..]
  {
    var n := 0;
    while n < |stream| && stream[n] != '\n'
      invariant n <= |stream|
      invariant LineLength(stream) == n + LineLength(stream[n..])
    {
      assert stream[n..][1..] == stream[n + 1..];
      n := n + 1;
    }
    if n < |stream| {
      n := n + 1;
    }
    line, rest := stream[..n], stream[n..];
    LineEndsAtNewline(stream);
  }

  // ---- Replies ----

  /** Reads lines until a final one: the reply, and the stream after it; none if the stream ends first. */
  function Read(stream: string, text: string): Option<(Reply, string)>
    decreases |stream|
  {
    if stream == "" then None
    else
      var n := LineLength(stream);
      var line, rest := stream[..n], stream[n..];
      var more := text + StripCodePrefix(line);
      if IsFinalLine(line) then Some((Reply(LineCode(line).value, more), rest)) else Read(rest, more)
  }

  method ReadReply(stream: string) returns (r: Option<(Reply, string)>)
    ensures r == Read(stream, "")
  {
    var rest, text := stream, "";
    var lastCode: Option<nat> := None;
    while true
      invariant Read(rest, text) == Read(stream, "")
      decreases |rest|
    {
      var line, after := ReadLine(rest);
      if line == "" {
        return None;
      }
      if LineCode(line).Some? {
        lastCode := LineCode(line);
      }
      text := text + StripCodePrefix(line);
      rest := after;
      if IsFinalLine(line) {
        return Some((Reply(lastCode.value, text), rest));
      }
    }
  }

  /** A command over a fresh connection: the greeting has to be one final line, and is discarded. */
  function Answer(stream: string): Option<(Reply, string)> {
    var n := LineLength(stream);
    if stream == "" || !IsFinalLine(stream[..n]) then None else Read(stream[n..], "")
  }

  /** There is an answer only behind a greeting: a first line that has a code and a space. */
  lemma AnswerNeedsGreeting(stream: string, answer: Reply, rest: string)
    requires Answer(stream) == Some((answer, rest))
    ensures |stream| > 4 && stream[4] == ' ' && forall k :: 0 <= k < 4 ==> '0' <= stream[k] <= '9'
  {}

  method Command(stream: string) returns (r: Option<(Reply, string)>)
    ensures r == Answer(stream)
  {
    var greeting, rest := ReadLine(stream);
    if greeting == "" || !IsFinalLine(greeting) {
      return None;
    }
    r := ReadReply(rest);
  }

  // ---- BIRD's side ----

  /** One line of a reply, before it is given its prefix. */
  datatype Line = Line(code: nat, text: string)

  function Digits(code: nat): string
    requires code < 10000
  {
    [Digit(code / 10 / 10 / 10), Digit(code / 10 / 10 % 10), Digit(code / 10 % 10), Digit(code % 10)]
  }

  function Digit(d: nat): (c: char)
    requires d < 10
    ensures IsDigit(c) && DigitOf(c) == d
  {
    ('0' as nat + d) as char
  }

  ghost predicate Printable(lines: seq<Line>) {
    lines != [] && forall i :: 0 <= i < |lines| ==> lines[i].code < 10000 && '\n' !in lines[i].text
  }

  /** A continuation line: the code is left out when it is the one before's. */
  function PrintContinuation(line: Line, before: Option<nat>): string
    requires line.code < 10000
  {
    (if before == Some(line.code) then " " else Digits(line.code) + "-") + line.text + "\n"
  }

  function PrintFinal(line: Line): string
    requires line.code < 10000
  {
    Digits(line.code) + " " + line.text + "\n"
  }

  function Print(lines: seq<Line>, before: Option<nat>): string
    requires Printable(lines)
  {
    if |lines| == 1 then PrintFinal(lines[0])
    else PrintContinuation(lines[0], before) + Print(lines[1..], Some(lines[0].code))
  }

  /** The text of a reply: its lines without their prefixes. */
  function Joined(lines: seq<Line>): string {
    if lines == [] then "" else lines[0].text + "\n" + Joined(lines[1..])
  }

  // ---- The round trip ----

  lemma {:induction false} LineEnds(text: string, rest: string)
    requires '\n' !in text
    ensures LineLength(text + "\n" + rest) == |text| + 1
  {
    var s := text + "\n" + rest;
    if text == "" {
      assert s[0] == '\n';
    } else {
      assert s[0] == text[0] && text[0] in text;
      assert s[1..] == text[1..] + "\n" + rest;
      LineEnds(text[1..], rest);
    }
  }

  lemma SplitsLine(line: string, rest: string)
    requires '\n' !in line
    ensures var s := line + "\n" + rest;
      && s != "" && LineLength(s) == |line| + 1
      && s[..LineLength(s)] == line + "\n" && s[LineLength(s)..] == rest
  {
    LineEnds(line, rest);
  }

  lemma DigitsCode(code: nat, separator: char, text: string)
    requires code < 10000
    ensures var line := Digits(code) + [separator] + text;
      && |line| >= 5 && line[4] == separator && line[5..] == text
      && LineCode(line) == Some(code)
  {
    hide Digit, IsDigit, DigitOf;
    Reassembled(code);
  }

  lemma Reassembled(code: nat)
    ensures 1000 * (code / 10 / 10 / 10) + 100 * (code / 10 / 10 % 10) + 10 * (code / 10 % 10) + code % 10 == code
  {
    var tens := code / 10;
    var hundreds := tens / 10;
    assert code == 10 * tens + code % 10;
    assert tens == 10 * hundreds + tens % 10;
    assert hundreds == 10 * (hundreds / 10) + hundreds % 10;
  }

  lemma DigitsHaveNoNewline(code: nat)
    ensures code < 10000 ==> '\n' !in Digits(code)
  {}

  /** A printed final line is the first line of what it is printed in front of, and reads as printed. */
  lemma FinalLineIs(line: Line, rest: string)
    requires line.code < 10000 && '\n' !in line.text
    ensures var printed := PrintFinal(line);
      && printed + rest != "" && LineLength(printed + rest) == |printed|
      && IsFinalLine(printed) && LineCode(printed) == Some(line.code) && StripCodePrefix(printed) == line.text + "\n"
  {
    hide Digits, LineCode, LineLength;
    var printed := Digits(line.code) + " " + line.text;
    DigitsHaveNoNewline(line.code);
    assert PrintFinal(line) + rest == printed + "\n" + rest;
    SplitsLine(printed, rest);
    DigitsCode(line.code, ' ', line.text + "\n");
    assert PrintFinal(line) == Digits(line.code) + [' '] + (line.text + "\n");
  }

  lemma FinalLineReads(line: Line, rest: string, text: string)
    requires line.code < 10000 && '\n' !in line.text
    ensures Read(PrintFinal(line) + rest, text) == Some((Reply(line.code, text + line.text + "\n"), rest))
  {
    hide Digits, LineCode, LineLength, PrintFinal, IsFinalLine, StripCodePrefix;
    FinalLineIs(line, rest);
    var s := PrintFinal(line) + rest;
    assert s[..|PrintFinal(line)|] == PrintFinal(line) && s[|PrintFinal(line)|..] == rest;
    assert text + (line.text + "\n") == text + line.text + "\n";
  }

  lemma ContinuationReads(line: Line, before: Option<nat>, rest: string, text: string)
    requires line.code < 10000 && '\n' !in line.text
    ensures Read(PrintContinuation(line, before) + rest, text) == Read(rest, text + line.text + "\n")
  {
    hide Digits, LineCode, LineLength;
    assert text + (line.text + "\n") == text + line.text + "\n";
    if before == Some(line.code) {
      var printed := " " + line.text;
      assert PrintContinuation(line, before) + rest == printed + "\n" + rest;
      SplitsLine(printed, rest);
      SpaceHasNoCode(line.text + "\n");
      assert printed + "\n" == " " + (line.text + "\n");
    } else {
      var printed := Digits(line.code) + "-" + line.text;
      DigitsHaveNoNewline(line.code);
      assert PrintContinuation(line, before) + rest == printed + "\n" + rest;
      SplitsLine(printed, rest);
      DigitsCode(line.code, '-', line.text + "\n");
      assert printed + "\n" == Digits(line.code) + ['-'] + (line.text + "\n");
    }
  }

  lemma SpaceHasNoCode(text: string)
    ensures LineCode(" " + text) == None
    ensures (" " + text)[0] == ' ' && (" " + text)[1..] == text
  {}

  lemma {:induction false} PrintedReads(lines: seq<Line>, before: Option<nat>, rest: string, text: string)
    requires Printable(lines)
    ensures Read(Print(lines, before) + rest, text) ==
      Some((Reply(lines[|lines| - 1].code, text + Joined(lines)), rest))
  {
    hide PrintFinal, PrintContinuation, Read;
    if |lines| == 1 {
      FinalLineReads(lines[0], rest, text);
      assert lines[1..] == [];
      assert text + Joined(lines) == text + lines[0].text + "\n";
    } else {
      var tail := lines[1..];
      var printed := Print(tail, Some(lines[0].code));
      assert Print(lines, before) + rest == PrintContinuation(lines[0], before) + (printed + rest);
      ContinuationReads(lines[0], before, printed + rest, text);
      PrintedReads(tail, Some(lines[0].code), rest, text + lines[0].text + "\n");
      assert text + lines[0].text + "\n" + Joined(tail) == text + Joined(lines);
    }
  }

  /** Any reply BIRD prints is read back with its final code and its text, and not a byte after it is
      consumed. */
  lemma RoundTrip(lines: seq<Line>, rest: string)
    requires Printable(lines)
    ensures Read(Print(lines, None) + rest, "") == Some((Reply(lines[|lines| - 1].code, Joined(lines)), rest))
  {
    hide *;
    PrintedReads(lines, None, rest, "");
    assert "" + Joined(lines) == Joined(lines);
  }

  /** A connection's greeting is discarded and the reply behind it read. */
  lemma AnswerRoundTrip(greeting: Line, lines: seq<Line>, rest: string)
    requires Printable([greeting]) && Printable(lines)
    ensures Answer(Print([greeting], None) + Print(lines, None) + rest) ==
      Some((Reply(lines[|lines| - 1].code, Joined(lines)), rest))
  {
    hide Digits, LineCode, LineLength, Read, Joined, PrintFinal, IsFinalLine;
    assert Printable([greeting]) && [greeting][0] == greeting;
    var printed, reply := PrintFinal(greeting), Print(lines, None) + rest;
    FinalLineIs(greeting, reply);
    var s := printed + reply;
    assert Print([greeting], None) + Print(lines, None) + rest == s;
    assert s[..|printed|] == printed && s[|printed|..] == reply;
    RoundTrip(lines, rest);
  }

  // ---- What is consumed of any stream ----

  /** The lines of a stream; the last may lack its newline. */
  function Lines(stream: string): seq<string>
    decreases |stream|
  {
    if stream == "" then [] else [stream[..LineLength(stream)]] + Lines(stream[LineLength(stream)..])
  }

  function Flat(lines: seq<string>): string {
    if lines == [] then "" else lines[0] + Flat(lines[1..])
  }

  function Stripped(lines: seq<string>): string {
    if lines == [] then "" else StripCodePrefix(lines[0]) + Stripped(lines[1..])
  }

  /** Whatever the stream holds, a reply is read exactly when some line is final; it ends with the first
      that is, has that line's code, and the text of all lines up to it. */
  lemma {:induction false} ReadsToFirstFinal(stream: string, text: string) returns (k: nat)
    ensures k <= |Lines(stream)|
    ensures forall j :: 0 <= j < k ==> !IsFinalLine(Lines(stream)[j])
    ensures k < |Lines(stream)| ==> IsFinalLine(Lines(stream)[k])
    ensures Read(stream, text) ==
      if k == |Lines(stream)| then None
      else
        Some((
          Reply(LineCode(Lines(stream)[k]).value, text + Stripped(Lines(stream)[..k + 1])),
          Flat(Lines(stream)[k + 1..])))
    decreases |stream|
  {
    hide LineCode, StripCodePrefix, LineLength;
    if stream == "" {
      k := 0;
    } else {
      var line, rest := stream[..LineLength(stream)], stream[LineLength(stream)..];
      var lines := Lines(stream);
      assert lines[0] == line && lines[1..] == Lines(rest);
      if IsFinalLine(line) {
        k := 0;
        FlatLines(rest);
        assert lines[..1] == [line] && [line][1..] == [];
        assert Stripped([line]) == StripCodePrefix(line);
      } else {
        var i := ReadsToFirstFinal(rest, text + StripCodePrefix(line));
        k := i + 1;
        if i < |Lines(rest)| {
          assert lines[..k + 1] == [line] + Lines(rest)[..i + 1];
          assert lines[..k + 1][1..] == Lines(rest)[..i + 1];
          assert lines[k + 1..] == Lines(rest)[i + 1..];
          assert text + StripCodePrefix(line) + Stripped(Lines(rest)[..i + 1]) == text + Stripped(lines[..k + 1]);
        }
      }
    }
  }

  lemma {:induction false} FlatLines(stream: string)
    ensures Flat(Lines(stream)) == stream
    decreases |stream|
  {
    if stream == "" {
    } else {
      FlatLines(stream[LineLength(stream)..]);
      assert stream == stream[..LineLength(stream)] + stream[LineLength(stream)..];
    }
  }
}
