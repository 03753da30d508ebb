/**
 * WorkoutPlanGenerator: the 30 day panels, the hours-and-minutes arithmetic of
 * the save button, and the reloading of a day's stored record into its panel.
 * The Swing widgets of a panel are reduced to the state they hold.
 */
module Plan {
  import opened JavaText
  import opened FileStore
  import opened Workouts
  import Metrics

  /** The text shown for a day the catalog has no entry for. */
  const NoDescription: string := "No workout description available."

  /**
   * The description panel of day dayNumber shows: entry dayNumber - 1 of the
   * catalog when there is one, the placeholder otherwise. Day numbers start
   * at 1 (a day number below 1 would make the Java lookup fail).
   */
  function DescriptionFor(descriptions: seq<string>, dayNumber: int): string
    requires dayNumber >= 1
  {
    if |descriptions| > dayNumber - 1 then descriptions[dayNumber - 1] else NoDescription
  }

  // ---------------------------------------------------------------------------
  // Minutes arithmetic
  // ---------------------------------------------------------------------------

  /** An hours or minutes field: empty counts as 0, anything else goes through parseInt. */
  function ParseField(text: string): (r: Option<int>)
    ensures r.Some? ==> IsInt32(r.value)
  {
    if text == "" then Some(0)
    else
      ParseIntShape(text);
      ParseInt(text)
  }

  /** hours * 60 + minutes in Java int arithmetic: the product and the sum both wrap. */
  function TotalMinutes(hours: int, minutes: int): (t: int)
    ensures IsInt32(t)
    ensures IsInt32(hours * 60) && IsInt32(hours * 60 + minutes) ==> t == hours * 60 + minutes
  {
    Wrap32(Wrap32(hours * 60) + minutes)
  }

  /**
   * The time text the save button stores for the two fields, or None when
   * either field is not a number (the save is then abandoned).
   */
  function SavedTime(hoursText: string, minutesText: string): (r: Option<string>)
    ensures r.Some? <==> ParseField(hoursText).Some? && ParseField(minutesText).Some?
  {
    var h := ParseField(hoursText);
    var m := ParseField(minutesText);
    if h.None? || m.None? then None
    else Some(IntToString(TotalMinutes(h.value, m.value)))
  }

  /**
   * What parseAndSetTime puts into the hours and minutes fields for a stored
   * time: the quotient and the remainder by 60, rounded toward zero; None
   * (the fields keep their text) when the time is not a number.
   */
  function DisplayedTime(timeTaken: string): (r: Option<(string, string)>)
    ensures r.Some? <==> ParseInt(timeTaken).Some?
  {
    var t := ParseInt(timeTaken);
    if t.None? then None
    else Some((IntToString(JavaDiv(t.value, 60)), IntToString(JavaRem(t.value, 60))))
  }

  /** Splitting h * 60 + m by 60 gives back h and m, when nothing wraps. */
  lemma SplitOfJoin(h: int, m: int)
    requires 0 <= h && 0 <= m < 60 && h * 60 + m <= MaxInt
    ensures JavaDiv(TotalMinutes(h, m), 60) == h
    ensures JavaRem(TotalMinutes(h, m), 60) == m
  {
    assert TotalMinutes(h, m) == h * 60 + m;
  }

  /** Joining the split of a non-negative total gives it back, and the minutes part is below 60. */
  lemma JoinOfSplit(total: int)
    requires 0 <= total <= MaxInt
    ensures 0 <= JavaRem(total, 60) < 60
    ensures TotalMinutes(JavaDiv(total, 60), JavaRem(total, 60)) == total
  {
    var h, m := JavaDiv(total, 60), JavaRem(total, 60);
    assert h * 60 + m == total;
    assert 0 <= h * 60 <= total;
  }

  /** A negative stored time shows a minutes part of at most 0: Java's remainder keeps the sign. */
  lemma NegativeTimeDisplay(total: int)
    requires total < 0
    ensures -60 < JavaRem(total, 60) <= 0
    ensures JavaDiv(total, 60) <= 0
  {
  }

  /**
   * Save and reload of the time fields: fields that read as h and m, with
   * 0 <= m < 60 and no wrap-around, come back as the decimal texts of h and m.
   */
  lemma TimeFieldsRoundTrip(hoursText: string, minutesText: string, h: int, m: int)
    requires ParseField(hoursText) == Some(h) && ParseField(minutesText) == Some(m)
    requires 0 <= h && 0 <= m < 60 && h * 60 + m <= MaxInt
    ensures SavedTime(hoursText, minutesText).Some?
    ensures DisplayedTime(SavedTime(hoursText, minutesText).value) == Some((IntToString(h), IntToString(m)))
  {
    var total := TotalMinutes(h, m);
    assert SavedTime(hoursText, minutesText) == Some(IntToString(total));
    DisplayOfNumber(total);
    SplitOfJoin(h, m);
  }

  /** The decimal text of an int is shown as that int's split. */
  lemma DisplayOfNumber(t: int)
    requires IsInt32(t)
    ensures DisplayedTime(IntToString(t)) == Some((IntToString(JavaDiv(t, 60)), IntToString(JavaRem(t, 60))))
  {
    ParseIntToString(t);
  }

  /** A field holding the decimal text of an int reads as that int. */
  lemma FieldOfNumeral(n: int)
    requires IsInt32(n)
    ensures ParseField(IntToString(n)) == Some(n)
  {
    IntToStringShape(n);
    ParseIntToString(n);
  }

  /** The split of a 32-bit time fits in 32 bits, and the save button joins it back without wrapping. */
  lemma SplitFits(t: int)
    requires IsInt32(t)
    ensures IsInt32(JavaDiv(t, 60)) && IsInt32(JavaRem(t, 60))
    ensures TotalMinutes(JavaDiv(t, 60), JavaRem(t, 60)) == t
  {
    var h, m := JavaDiv(t, 60), JavaRem(t, 60);
    assert h * 60 + m == t;
    if t >= 0 { assert 0 <= h * 60 <= t; } else { assert t <= h * 60 <= 0; }
  }

  /**
   * A time shown by parseAndSetTime and saved again without edits is stored
   * as the same text: the save button rebuilds every int from its split.
   */
  lemma ResaveKeepsTime(t: int)
    requires IsInt32(t)
    ensures DisplayedTime(IntToString(t)).Some?
    ensures var shown := DisplayedTime(IntToString(t)).value;
            SavedTime(shown.0, shown.1) == Some(IntToString(t))
  {
    DisplayOfNumber(t);
    SplitFits(t);
    FieldOfNumeral(JavaDiv(t, 60));
    FieldOfNumeral(JavaRem(t, 60));
  }

  /** A decimal numeral holds only digits and '-': no separator and no line terminator. */
  lemma NumeralIsPlain(n: int)
    ensures ',' !in IntToString(n) && ':' !in IntToString(n)
    ensures HasNoLineBreak(BufferedReader, IntToString(n))
  {
    IntToStringShape(n);
  }

  /** A day label and a decimal time never contain the separators of the record line. */
  lemma SavedRecordIsStorable(dayNumber: int, completed: bool, total: int)
    ensures Storable(WorkoutRecord(DayLabel(dayNumber), completed, IntToString(total)))
  {
    NumeralIsPlain(dayNumber);
    NumeralIsPlain(total);
    var day := DayLabel(dayNumber);
    assert day == "Day " + IntToString(dayNumber);
    assert ',' !in day;
    AbsentHead(day, ", ");
    AbsentHead(IntToString(total), ", ");
    AbsentHead(IntToString(total), ": ");
  }

  // ---------------------------------------------------------------------------
  // The panels
  // ---------------------------------------------------------------------------

  /** WorkoutDetails: the state of a day's checkbox and of its two time fields. */
  class DayDetails {
    var completed: bool
    var hours: string
    var minutes: string

    /** A new panel: unchecked, both fields empty. */
    constructor ()
      ensures !completed && hours == "" && minutes == ""
    {
      completed := false;
      hours := "";
      minutes := "";
    }
  }

  /** parseAndSetTime: a numeric stored time is split into the two fields; any other leaves them as they were. */
  method ParseAndSetTime(timeTaken: string, details: DayDetails)
    modifies details
    ensures details.completed == old(details.completed)
    ensures DisplayedTime(timeTaken).Some? ==>
              details.hours == DisplayedTime(timeTaken).value.0 && details.minutes == DisplayedTime(timeTaken).value.1
    ensures DisplayedTime(timeTaken).None? ==>
              details.hours == old(details.hours) && details.minutes == old(details.minutes)
  {
    var totalMinutes := ParseInt(timeTaken);
    if totalMinutes.Some? {
      details.hours := IntToString(JavaDiv(totalMinutes.value, 60));
      details.minutes := IntToString(JavaRem(totalMinutes.value, 60));
    }
  }

  /** updateWorkoutDetails: the checkbox takes the record's flag, the fields its time. */
  method UpdateWorkoutDetails(details: DayDetails, w: WorkoutRecord)
    modifies details
    ensures details.completed == w.completed
    ensures DisplayedTime(w.timeTaken).Some? ==>
              details.hours == DisplayedTime(w.timeTaken).value.0 && details.minutes == DisplayedTime(w.timeTaken).value.1
    ensures DisplayedTime(w.timeTaken).None? ==>
              details.hours == old(details.hours) && details.minutes == old(details.minutes)
  {
    details.completed := w.completed;
    ParseAndSetTime(w.timeTaken, details);
  }

  /** The result of the save button: written, or abandoned on a NumberFormatException. */
  datatype SaveOutcome = Saved | InvalidNumber

  /** What a click on a day button does: nothing out of range, an escaped load error, or a refreshed panel. */
  datatype LoadDetailsOutcome = OutOfRange | LoadFailed | Updated

  /** The captions of the buttons of days 1 .. n, in order. */
  function DayLabels(n: nat): (labels: seq<string>)
    ensures |labels| == n
  {
    if n == 0 then [] else DayLabels(n - 1) + [DayLabel(n)]
  }

  lemma {:induction false} DayLabelsAt(n: nat)
    ensures forall k :: 0 <= k < n ==> DayLabels(n)[k] == DayLabel(k + 1)
  {
    if n > 0 {
      DayLabelsAt(n - 1);
      assert forall k :: 0 <= k < n - 1 ==> DayLabels(n)[k] == DayLabels(n - 1)[k];
    }
  }

  /** The descriptions shown for days 1 .. n, in order. */
  function DescriptionsUpTo(catalog: seq<string>, n: nat): (shown: seq<string>)
    ensures |shown| == n
  {
    if n == 0 then [] else DescriptionsUpTo(catalog, n - 1) + [DescriptionFor(catalog, n)]
  }

  lemma {:induction false} DescriptionsUpToAt(catalog: seq<string>, n: nat)
    ensures forall k :: 0 <= k < n ==> DescriptionsUpTo(catalog, n)[k] == DescriptionFor(catalog, k + 1)
  {
    if n > 0 {
      DescriptionsUpToAt(catalog, n - 1);
      assert forall k :: 0 <= k < n - 1 ==> DescriptionsUpTo(catalog, n)[k] == DescriptionsUpTo(catalog, n - 1)[k];
    }
  }

  /** Days 1 .. n show the first n entries of a catalog that has them. */
  lemma {:induction false} ShownPrefix(catalog: seq<string>, n: nat)
    requires n <= |catalog|
    ensures DescriptionsUpTo(catalog, n) == catalog[..n]
  {
    if n > 0 {
      ShownPrefix(catalog, n - 1);
      assert catalog[..n] == catalog[..n - 1] + [catalog[n - 1]];
    }
  }

  /**
   * addWorkoutDaysAndDetails with createWorkoutDetailsPanel: for every day i
   * in 1..30, the button captioned "Day i", the description shown for day i,
   * and a new empty detail panel stored in slot i - 1 of the panel array.
   */
  method AddWorkoutDaysAndDetails(catalog: seq<string>, panels: array<DayDetails?>)
    returns (labels: seq<string>, shown: seq<string>)
    requires panels.Length == Metrics.TotalPlannedWorkouts
    modifies panels
    ensures |labels| == panels.Length && labels == DayLabels(|labels|)
    ensures |shown| == panels.Length && shown == DescriptionsUpTo(catalog, |shown|)
    ensures forall k :: 0 <= k < panels.Length ==>
              panels[k] != null && fresh(panels[k])
              && !panels[k].completed && panels[k].hours == "" && panels[k].minutes == ""
    ensures forall k, l :: 0 <= k < l < panels.Length ==> panels[k] != panels[l]
  {
    labels, shown := [], [];
    for i := 1 to Metrics.TotalPlannedWorkouts + 1
      invariant labels == DayLabels(i - 1) && shown == DescriptionsUpTo(catalog, i - 1)
      invariant forall k :: 0 <= k < i - 1 ==>
                  panels[k] != null && fresh(panels[k])
                  && !panels[k].completed && panels[k].hours == "" && panels[k].minutes == ""
      invariant forall k, l :: 0 <= k < l < i - 1 ==> panels[k] != panels[l]
    {
      var day := DayLabel(i);
      labels := labels + [day];
      var description := CreateWorkoutDetailsPanel(catalog, panels, i);
      shown := shown + [description];
    }
  }

  /**
   * createWorkoutDetailsPanel: looks up the description of day dayNumber and
   * stores a new empty detail panel in slot dayNumber - 1.
   */
  method CreateWorkoutDetailsPanel(catalog: seq<string>, panels: array<DayDetails?>, dayNumber: int)
    returns (description: string)
    requires 1 <= dayNumber <= panels.Length
    modifies panels
    ensures description == DescriptionFor(catalog, dayNumber)
    ensures panels[dayNumber - 1] != null && fresh(panels[dayNumber - 1])
    ensures !panels[dayNumber - 1].completed && panels[dayNumber - 1].hours == "" && panels[dayNumber - 1].minutes == ""
    ensures forall k :: 0 <= k < panels.Length && k != dayNumber - 1 ==> panels[k] == old(panels[k])
  {
    description := DescriptionFor(catalog, dayNumber);
    var d := new DayDetails();
    panels[dayNumber - 1] := d;
  }

  /** The plan window: the catalog, the day buttons, the description shown on each day's panel, and the 30 detail panels. */
  class PlanGenerator {
    var descriptions: seq<string>
    var dayLabels: seq<string>
    var shownDescriptions: seq<string>
    var details: array<DayDetails?>

    /** One detail panel per planned day, each its own object. */
    predicate Valid()
      reads this, details
    {
      && details.Length == Metrics.TotalPlannedWorkouts
      && (forall i :: 0 <= i < details.Length ==> details[i] != null)
      && (forall i, j :: 0 <= i < j < details.Length ==> details[i] != details[j])
    }

    /**
     * The constructor: the 30 descriptions in day order, then a panel array of
     * 30 slots, filled by addWorkoutDaysAndDetails. Day i + 1 shows catalog
     * entry i, so the placeholder text never appears.
     */
    constructor (catalog: seq<string>)
      requires |catalog| == Metrics.TotalPlannedWorkouts
      ensures Valid() && fresh(details)
      ensures descriptions == catalog
      ensures |dayLabels| == Metrics.TotalPlannedWorkouts
      ensures forall i :: 0 <= i < |dayLabels| ==> dayLabels[i] == DayLabel(i + 1)
      ensures shownDescriptions == catalog
      ensures forall i :: 0 <= i < details.Length ==>
                fresh(details[i]) && !details[i].completed && details[i].hours == "" && details[i].minutes == ""
    {
      var panels := new DayDetails?[Metrics.TotalPlannedWorkouts](_ => null);
      var labels, shown := AddWorkoutDaysAndDetails(catalog, panels);
      DayLabelsAt(|labels|);
      ShownPrefix(catalog, |shown|);
      assert catalog[..|shown|] == catalog;
      descriptions := catalog;
      dayLabels := labels;
      shownDescriptions := shown;
      details := panels;
    }

    /**
     * The save button of day dayNumber: reads the panel's checkbox and fields
     * and writes the record ("Day n", checkbox, total minutes) to the day's
     * file; nothing is written when a field is not a number.
     */
    method Save(dayNumber: int, disk: Disk) returns (outcome: SaveOutcome)
      requires Valid() && 1 <= dayNumber <= details.Length
      modifies disk
      ensures var d := details[dayNumber - 1];
              var time := SavedTime(d.hours, d.minutes);
              && (outcome == Saved <==> time.Some?)
              && (time.Some? ==> disk.files == old(disk.files)[SlotName(dayNumber) :=
                    Printed([Format(WorkoutRecord(DayLabel(dayNumber), d.completed, time.value))])])
              && (time.None? ==> disk.files == old(disk.files))
    {
      var d := details[dayNumber - 1];
      var completed := d.completed;
      var timeHour := ParseField(d.hours);
      if timeHour.None? {
        return InvalidNumber;
      }
      var timeMins := ParseField(d.minutes);
      if timeMins.None? {
        return InvalidNumber;
      }
      var totalMinutes := TotalMinutes(timeHour.value, timeMins.value);
      var timeTaken := IntToString(totalMinutes);
      SaveWorkout(disk, WorkoutRecord(DayLabel(dayNumber), completed, timeTaken), dayNumber);
      outcome := Saved;
    }

    /**
     * loadWorkoutDetails: for a day in 1..30, loads the day's record and shows
     * it in the day's panel; other day numbers change nothing. An index error
     * from the load escapes before any panel changes.
     */
    method LoadWorkoutDetails(dayNumber: int, disk: Disk) returns (outcome: LoadDetailsOutcome)
      requires Valid()
      modifies details[..]
      ensures Valid()
      ensures forall i :: 0 <= i < details.Length && i != dayNumber - 1 ==> unchanged(details[i])
      ensures !(1 <= dayNumber <= details.Length) ==> outcome == OutOfRange
      ensures 1 <= dayNumber <= details.Length ==>
                var d := details[dayNumber - 1];
                match LoadSpec(disk.files, dayNumber)
                case IndexOutOfBounds => outcome == LoadFailed && unchanged(d)
                case Loaded(w) =>
                  && outcome == Updated
                  && d.completed == w.completed
                  && (DisplayedTime(w.timeTaken).Some? ==>
                        d.hours == DisplayedTime(w.timeTaken).value.0 && d.minutes == DisplayedTime(w.timeTaken).value.1)
                  && (DisplayedTime(w.timeTaken).None? ==> d.hours == old(d.hours) && d.minutes == old(d.minutes))
    {
      if !(dayNumber > 0 && dayNumber <= details.Length) {
        return OutOfRange;
      }
      var d := details[dayNumber - 1];
      var loaded := LoadWorkouts(disk, dayNumber);
      if loaded.IndexOutOfBounds? {
        return LoadFailed;
      }
      UpdateWorkoutDetails(d, loaded.record);
      outcome := Updated;
    }
  }

  /**
   * Saving a day from fields that read as h and m (0 <= m < 60, no wrap-around)
   * and then loading that day shows the checkbox as it was saved and the
   * fields as the decimal texts of h and m.
   */
  lemma SaveThenLoadDay(files: map<string, string>, dayNumber: int, completed: bool,
                        hoursText: string, minutesText: string, h: int, m: int)
    requires ParseField(hoursText) == Some(h) && ParseField(minutesText) == Some(m)
    requires 0 <= h && 0 <= m < 60 && h * 60 + m <= MaxInt
    ensures SavedTime(hoursText, minutesText).Some?
    ensures var w := WorkoutRecord(DayLabel(dayNumber), completed, SavedTime(hoursText, minutesText).value);
            var after := files[SlotName(dayNumber) := Printed([Format(w)])];
            && LoadSpec(after, dayNumber) == Loaded(w)
            && DisplayedTime(w.timeTaken) == Some((IntToString(h), IntToString(m)))
  {
    TimeFieldsRoundTrip(hoursText, minutesText, h, m);
    var total := TotalMinutes(h, m);
    SavedRecordIsStorable(dayNumber, completed, total);
    SaveLoadRoundTrip(files, WorkoutRecord(DayLabel(dayNumber), completed, IntToString(total)), dayNumber);
  }
}
