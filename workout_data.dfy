/**
 * WorkoutData: one day's workout record, its one-line text form, and the
 * per-day file it is saved to and loaded from.
 */
module Workouts {
  import opened JavaText
  import opened FileStore

  /** A day's entry: the day label, whether it was done, and the minutes as text. */
  datatype WorkoutRecord = WorkoutRecord(day: string, completed: bool, timeTaken: string)

  /** WorkoutData.toString: the line that is saved for a day. */
  function Format(w: WorkoutRecord): string {
    "Day: " + w.day + ", Completed: " + BoolText(w.completed) + ", Time Taken: " + w.timeTaken
  }

  /** The file that holds the record of the given day, "day<n>workout.txt". */
  function SlotName(day: int): string {
    "day" + IntToString(day) + "workout.txt"
  }

  /** The label every loaded record carries, "Day <n>". */
  function DayLabel(day: int): string {
    "Day " + IntToString(day)
  }

  /** What a day without a file loads as: not completed, "0" minutes. */
  function DefaultRecord(day: int): WorkoutRecord {
    WorkoutRecord(DayLabel(day), false, "0")
  }

  /** Different days are kept in different files. */
  lemma SlotNameInjective(m: int, n: int)
    requires SlotName(m) == SlotName(n)
    ensures m == n
  {
    var a, b := IntToString(m), IntToString(n);
    assert |a| == |b|;
    assert a == SlotName(m)[3..3 + |a|];
    assert b == SlotName(n)[3..3 + |b|];
    IntToStringInjective(m, n);
  }

  /** The two values a stored line yields. */
  datatype LineValues = LineValues(completed: bool, timeTaken: string)

  /** The text after the first ": " of a part; None where the split has no second piece. */
  function ValueOf(part: string): Option<string> {
    var pieces := JavaSplit(part, ": ");
    if |pieces| < 2 then None else Some(pieces[1])
  }

  /**
   * The values loadWorkouts takes from one line: the values of its second and
   * third ", "-separated parts. None where the Java code indexes past the end
   * of a split result (ArrayIndexOutOfBoundsException).
   */
  function ParseLine(line: string): Option<LineValues> {
    var parts := JavaSplit(line, ", ");
    if |parts| < 2 then None
    else
      var completedText := ValueOf(parts[1]);
      if completedText.None? || |parts| < 3 then None
      else
        var timeText := ValueOf(parts[2]);
        if timeText.None? then None
        else Some(LineValues(ParseBoolean(completedText.value), timeText.value))
  }

  /** Every line of a file parses. */
  predicate AllLinesParse(lines: seq<string>)
    decreases |lines|
  {
    lines != [] ==> ParseLine(lines[0]).Some? && AllLinesParse(lines[1..])
  }

  /** When every line parses, so does the last one. */
  lemma {:induction false} AllLinesParseLast(lines: seq<string>)
    requires lines != [] && AllLinesParse(lines)
    ensures ParseLine(lines[|lines| - 1]).Some?
    decreases |lines|
  {
    if |lines| > 1 {
      AllLinesParseLast(lines[1..]);
      assert lines[1..][|lines| - 2] == lines[|lines| - 1];
    }
  }

  /** AllLinesParse says that every line parses. */
  lemma {:induction false} AllLinesParseEvery(lines: seq<string>)
    ensures AllLinesParse(lines) <==> forall i :: 0 <= i < |lines| ==> ParseLine(lines[i]).Some?
    decreases |lines|
  {
    if lines != [] {
      AllLinesParseEvery(lines[1..]);
      assert forall i :: 0 < i < |lines| ==> lines[i] == lines[1..][i - 1];
    }
  }

  /**
   * The result of loading a day: a record, or the index error that escapes
   * loadWorkouts (only IOException is caught there).
   */
  datatype LoadOutcome = Loaded(record: WorkoutRecord) | IndexOutOfBounds

  /**
   * What loading a day yields, stated on the file system: the default record
   * when the file is missing; otherwise the values of the LAST line, once
   * every line has parsed; and (false, "") when the file has no line.
   */
  function LoadSpec(files: map<string, string>, day: int): LoadOutcome {
    var name := SlotName(day);
    if name !in files then Loaded(DefaultRecord(day))
    else
      var lines := ReadLines(BufferedReader, files[name]);
      if !AllLinesParse(lines) then IndexOutOfBounds
      else if lines == [] then Loaded(WorkoutRecord(DayLabel(day), false, ""))
      else
        AllLinesParseLast(lines);
        var v := ParseLine(lines[|lines| - 1]).value;
        Loaded(WorkoutRecord(DayLabel(day), v.completed, v.timeTaken))
  }

  /** WorkoutData.saveWorkout: the day's file is replaced by the record's line. */
  method SaveWorkout(disk: Disk, w: WorkoutRecord, day: int)
    modifies disk
    ensures disk.files == old(disk.files)[SlotName(day) := Printed([Format(w)])]
  {
    var filename := SlotName(day);
    disk.files := disk.files[filename := Printed([Format(w)])];
  }

  /**
   * The values the read loop ends with when it starts from current and reads
   * the given text; None when a line fails to parse.
   */
  function ReadValues(content: string, current: LineValues): Option<LineValues>
    decreases |content|
  {
    if content == [] then Some(current)
    else
      var next := TakeLine(BufferedReader, content);
      var v := ParseLine(next.0);
      if v.None? then None else ReadValues(next.1, v.value)
  }

  /** A file's lines all parse when its first line and all the following ones do; the last line is the tail's. */
  lemma AllLinesParseCons(first: string, tail: seq<string>)
    ensures AllLinesParse([first] + tail) <==> ParseLine(first).Some? && AllLinesParse(tail)
    ensures tail != [] ==> ([first] + tail)[|tail|] == tail[|tail| - 1]
  {
    assert ([first] + tail)[1..] == tail;
  }

  /** The read loop ends with the last line's values, or fails exactly when some line does not parse. */
  lemma {:induction false} ReadValuesLastLine(content: string, current: LineValues)
    ensures var lines := ReadLines(BufferedReader, content);
            ReadValues(content, current) ==
              if !AllLinesParse(lines) then None
              else if lines == [] then Some(current)
              else ParseLine(lines[|lines| - 1])
    decreases |content|
  {
    if content != [] {
      var next := TakeLine(BufferedReader, content);
      var tail := ReadLines(BufferedReader, next.1);
      assert ReadLines(BufferedReader, content) == [next.0] + tail;
      AllLinesParseCons(next.0, tail);
      var v := ParseLine(next.0);
      if v.Some? {
        ReadValuesLastLine(next.1, v.value);
      }
    }
  }

  /** WorkoutData.loadWorkouts: reads the day's file line by line. */
  method LoadWorkouts(disk: Disk, day: int) returns (r: LoadOutcome)
    ensures r == LoadSpec(disk.files, day)
    ensures SlotName(day) !in disk.files ==> r == Loaded(DefaultRecord(day))
    ensures r.Loaded? ==> r.record.day == DayLabel(day)
    ensures SlotName(day) in disk.files && disk.files[SlotName(day)] == "" ==>
              r == Loaded(WorkoutRecord(DayLabel(day), false, ""))
  {
    var filename := SlotName(day);
    if filename !in disk.files {
      return Loaded(DefaultRecord(day));
    }
    ReadValuesLastLine(disk.files[filename], LineValues(false, ""));
    ghost var lines := ReadLines(BufferedReader, disk.files[filename]);
    if lines != [] && AllLinesParse(lines) {
      AllLinesParseLast(lines);
    }
    var rest := disk.files[filename];
    var parsedCompleted := false;
    var parsedTimeTaken := "";
    while rest != []
      invariant ReadValues(rest, LineValues(parsedCompleted, parsedTimeTaken))
                == ReadValues(disk.files[filename], LineValues(false, ""))
      decreases |rest|
    {
      var next := TakeLine(BufferedReader, rest);
      var line := next.0;
      rest := next.1;
      var values := ParseLine(line);
      if values.None? {
        return IndexOutOfBounds;
      }
      parsedCompleted, parsedTimeTaken := values.value.completed, values.value.timeTaken;
    }
    r := Loaded(WorkoutRecord(DayLabel(day), parsedCompleted, parsedTimeTaken));
  }

  // ---------------------------------------------------------------------------
  // Properties of the line format
  // ---------------------------------------------------------------------------

  lemma AbsentHead(s: string, p: string)
    requires p != [] && p[0] !in s
    ensures !Contains(s, p)
  {
    if Contains(s, p) {
      ContainsHasHead(s, p);
    }
  }

  lemma NoPatternAcross(a: string, b: string, p: string)
    requires |p| == 2 && !Contains(a, p) && !Contains(b, p)
    requires a == [] || a[|a| - 1] != p[0]
    ensures !Contains(a + b, p)
  {
    if Contains(a + b, p) {
      ContainsConcat(a, b, p);
    }
  }

  /** The conditions under which a record survives its own line format. */
  predicate Storable(w: WorkoutRecord) {
    && !Contains(w.day, ", ")
    && !Contains(w.timeTaken, ", ")
    && !Contains(w.timeTaken, ": ")
    && w.timeTaken != ""
    && HasNoLineBreak(BufferedReader, w.day)
    && HasNoLineBreak(BufferedReader, w.timeTaken)
  }

  /** Three parts joined by ", " split back into those parts. */
  lemma SplitThreeParts(a: string, p1: string, p2: string)
    requires !Contains(a, ", ") && !Contains(p1, ", ") && !Contains(p2, ", ") && p2 != ""
    ensures JavaSplit(a + ", " + p1 + ", " + p2, ", ") == [a, p1, p2]
  {
    assert a + ", " + p1 + ", " + p2 == a + ", " + (p1 + ", " + p2);
    SplitAfter(a, ", ", p1 + ", " + p2);
    SplitAfter(p1, ", ", p2);
    SplitAbsent(p2, ", ");
    assert Split(a + ", " + p1 + ", " + p2, ", ") == [a, p1, p2];
  }

  /** "key: value" yields value, when the key has no ':' and the value no ": ". */
  lemma ValueOfPair(key: string, v: string)
    requires ':' !in key && !Contains(v, ": ")
    ensures ValueOf(key + ": " + v) == if v == "" then None else Some(v)
  {
    AbsentHead(key, ": ");
    SplitAfter(key, ": ", v);
    SplitAbsent(v, ": ");
    assert Split(key + ": " + v, ": ") == [key, v];
    if v == "" {
      assert DropTrailingEmpty([key, v]) == DropTrailingEmpty([key]);
    }
  }

  /** A key without ',' followed by a value without ", " holds no ", ". */
  lemma KeyedPartHasNoSeparator(key: string, v: string)
    requires ',' !in key && !Contains(v, ", ")
    ensures !Contains(key + v, ", ")
  {
    AbsentHead(key, ", ");
    NoPatternAcross(key, v, ", ");
  }

  lemma ParseLineOfParts(line: string, a: string, p1: string, p2: string)
    requires JavaSplit(line, ", ") == [a, p1, p2]
    ensures ParseLine(line) == if ValueOf(p1).None? || ValueOf(p2).None? then None
                               else Some(LineValues(ParseBoolean(ValueOf(p1).value), ValueOf(p2).value))
  {
  }

  lemma Literals()
    ensures ", Completed: " == ", " + "Completed: "
    ensures ", Time Taken: " == ", " + "Time Taken: "
  {
  }

  lemma FormatShape(w: WorkoutRecord)
    ensures Format(w) == "Day: " + w.day + ", " + ("Completed: " + BoolText(w.completed)) + ", " + ("Time Taken: " + w.timeTaken)
  {
    Literals();
  }

  lemma FormatSplits(w: WorkoutRecord)
    requires !Contains(w.day, ", ") && !Contains(w.timeTaken, ", ")
    ensures JavaSplit(Format(w), ", ") == ["Day: " + w.day, "Completed: " + BoolText(w.completed), "Time Taken: " + w.timeTaken]
  {
      var b := BoolText(w.completed);
      var p1 := "Completed: " + b;
      var p2 := "Time Taken: " + w.timeTaken;
      KeyedPartHasNoSeparator("Day: ", w.day);
      AbsentHead(p1, ", ");
      KeyedPartHasNoSeparator("Time Taken: ", w.timeTaken);
      FormatShape(w);
      SplitThreeParts("Day: " + w.day, p1, p2);
  }

  lemma CompletedValue(b: bool)
    ensures ValueOf("Completed: " + BoolText(b)) == Some(BoolText(b))
  {
      assert "Completed: " + BoolText(b) == "Completed" + ": " + BoolText(b);
      AbsentHead(BoolText(b), ": ");
      ValueOfPair("Completed", BoolText(b));
  }

  lemma TimeValue(t: string)
    requires !Contains(t, ": ")
    ensures ValueOf("Time Taken: " + t) == if t == "" then None else Some(t)
  {
      assert "Time Taken: " + t == "Time Taken" + ": " + t;
      ValueOfPair("Time Taken", t);
  }

  lemma ParseFormat(w: WorkoutRecord)
    requires Storable(w)
    ensures ParseLine(Format(w)) == Some(LineValues(w.completed, w.timeTaken))
  {
    FormatSplits(w);
    ParseLineOfParts(Format(w), "Day: " + w.day, "Completed: " + BoolText(w.completed), "Time Taken: " + w.timeTaken);
    CompletedValue(w.completed);
    TimeValue(w.timeTaken);
    ParseBooleanOfBoolText(w.completed);
  }

  /** An empty time is written as "Time Taken: ", whose split has nothing after ": ". */
  lemma EmptyTimeIsMalformed(w: WorkoutRecord)
    requires !Contains(w.day, ", ") && w.timeTaken == ""
    ensures ParseLine(Format(w)).None?
  {
    AbsentHead(w.timeTaken, ", ");
    AbsentHead(w.timeTaken, ": ");
    FormatSplits(w);
    ParseLineOfParts(Format(w), "Day: " + w.day, "Completed: " + BoolText(w.completed), "Time Taken: " + w.timeTaken);
    TimeValue(w.timeTaken);
  }

  /** A line without any ", " has a single part, so reading its second part fails. */
  lemma LineWithoutSeparatorIsMalformed(line: string)
    requires !Contains(line, ", ")
    ensures ParseLine(line).None?
  {
    SplitAbsent(line, ", ");
  }

  lemma StorableLineHasNoBreak(w: WorkoutRecord)
    requires Storable(w)
    ensures HasNoLineBreak(BufferedReader, Format(w))
  {
    var s := Format(w);
    forall i | 0 <= i < |s|
      ensures !IsLineBreak(BufferedReader, s[i])
    {
      assert s[i] in s;
      assert s[i] in "Day: " || s[i] in w.day || s[i] in ", Completed: " || s[i] in BoolText(w.completed)
          || s[i] in ", Time Taken: " || s[i] in w.timeTaken;
    }
  }

  /** Saving a storable record and loading its day gives back its flag and time under the day's label. */
  lemma SaveLoadRoundTrip(files: map<string, string>, w: WorkoutRecord, day: int)
    requires Storable(w)
    ensures LoadSpec(files[SlotName(day) := Printed([Format(w)])], day)
            == Loaded(WorkoutRecord(DayLabel(day), w.completed, w.timeTaken))
  {
    var line := Format(w);
    StorableLineHasNoBreak(w);
    ReadPrinted(BufferedReader, [line]);
    ParseFormat(w);
    assert [line][1..] == [];
    assert AllLinesParse([line]);
  }

  function FormatAll(ws: seq<WorkoutRecord>): (lines: seq<string>)
    ensures |lines| == |ws|
    ensures forall i :: 0 <= i < |ws| ==> lines[i] == Format(ws[i])
  {
    if ws == [] then [] else [Format(ws[0])] + FormatAll(ws[1..])
  }

  /** When a file holds several records' lines, the last one is what loads. */
  lemma LastLineWins(files: map<string, string>, ws: seq<WorkoutRecord>, day: int)
    requires ws != []
    requires forall i :: 0 <= i < |ws| ==> Storable(ws[i])
    requires SlotName(day) in files && files[SlotName(day)] == Printed(FormatAll(ws))
    ensures LoadSpec(files, day)
            == Loaded(WorkoutRecord(DayLabel(day), ws[|ws| - 1].completed, ws[|ws| - 1].timeTaken))
  {
    var lines := FormatAll(ws);
    forall i | 0 <= i < |ws|
      ensures HasNoLineBreak(BufferedReader, lines[i]) && ParseLine(lines[i]).Some?
    {
      StorableLineHasNoBreak(ws[i]);
      ParseFormat(ws[i]);
    }
    ReadPrinted(BufferedReader, lines);
    AllLinesParseEvery(lines);
    ParseFormat(ws[|ws| - 1]);
    assert lines[|lines| - 1] == Format(ws[|ws| - 1]);
  }
}
