/**
 * The files the application reads and writes, by name. A file holds text;
 * PrintWriter.println appends a line and a '\n', and BufferedReader.readLine
 * and Scanner.nextLine cut the text back into lines.
 */
module FileStore {

  /** The two readers differ only in which characters end a line. */
  datatype LineReader = BufferedReader | Scanner

  predicate IsLineBreak(reader: LineReader, c: char) {
    c == '\n' || c == '\r'
    || (reader == Scanner && (c == '\U{2028}' || c == '\U{2029}' || c == '\U{0085}'))
  }

  predicate HasNoLineBreak(reader: LineReader, s: string) {
    forall i :: 0 <= i < |s| ==> !IsLineBreak(reader, s[i])
  }

  /**
   * One readLine/nextLine call: the text up to the first line terminator, and
   * what follows that terminator ("\r\n" is a single terminator).
   */
  function TakeLine(reader: LineReader, content: string): (r: (string, string))
    requires content != []
    ensures |r.1| < |content|
    ensures HasNoLineBreak(reader, r.0)
  {
    if IsLineBreak(reader, content[0]) then
      ("", if content[0] == '\r' && |content| > 1 && content[1] == '\n' then content[2..] else content[1..])
    else if |content| == 1 then
      (content, "")
    else
      var r := TakeLine(reader, content[1..]);
      ([content[0]] + r.0, r.1)
  }

  /** The lines a reader returns, one per call, until the text is used up. */
  function ReadLines(reader: LineReader, content: string): seq<string>
    decreases |content|
  {
    if content == [] then []
    else
      var r := TakeLine(reader, content);
      [r.0] + ReadLines(reader, r.1)
  }

  /** The text that println of each of the given values, in order, writes. */
  function Printed(lines: seq<string>): string {
    if lines == [] then "" else lines[0] + "\n" + Printed(lines[1..])
  }

  lemma {:induction false} PrintedAppend(lines: seq<string>, line: string)
    ensures Printed(lines + [line]) == Printed(lines) + line + "\n"
    decreases |lines|
  {
    if lines == [] {
      assert lines + [line] == [line];
    } else {
      assert (lines + [line])[1..] == lines[1..] + [line];
      PrintedAppend(lines[1..], line);
    }
  }

  /** A line without terminators is read back whole, and reading stops after its '\n'. */
  lemma {:induction false} TakePrintedLine(reader: LineReader, line: string, rest: string)
    requires HasNoLineBreak(reader, line)
    ensures TakeLine(reader, line + "\n" + rest) == (line, rest)
    decreases |line|
  {
    var c := line + "\n" + rest;
    if line == [] {
      assert c[0] == '\n' && c[1..] == rest;
    } else {
      assert c[1..] == line[1..] + "\n" + rest;
      TakePrintedLine(reader, line[1..], rest);
      assert [line[0]] + line[1..] == line;
    }
  }

  /** Reading back what println wrote gives the written values, when none holds a terminator. */
  lemma {:induction false} ReadPrinted(reader: LineReader, lines: seq<string>)
    requires forall i :: 0 <= i < |lines| ==> HasNoLineBreak(reader, lines[i])
    ensures ReadLines(reader, Printed(lines)) == lines
    decreases |lines|
  {
    if lines != [] {
      TakePrintedLine(reader, lines[0], Printed(lines[1..]));
      ReadPrinted(reader, lines[1..]);
    }
  }

  /** The file system: the text of every file that exists, by name. */
  class Disk {
    var files: map<string, string>

    constructor (initial: map<string, string>)
      ensures files == initial
    {
      files := initial;
    }
  }
}
